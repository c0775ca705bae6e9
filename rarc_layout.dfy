/**
  The byte image `Rarc::Save` writes (src/Archive.cpp:375-543) for a
  directory list, section by section, and the proof that every section fits
  the size `CalculateArchiveSizes` reserved for it.

  The image is a 0x20-byte header, a 0x20-byte file-system header, the
  16-byte directory records, the 20-byte entries, the string table and the
  file data, each section zero-filled to its reserved size.
*/
module RarcLayout {
  import opened Util
  import opened Bytes
  import opened RarcFormat

  /** `toupper` in the C locale. */
  function Upper(b: byte): byte {
    if 0x61 <= Val(b) <= 0x7A then b - 0x20 else b
  }

  function IdByte(name: Name, ch: nat): byte {
    if ch < |name| then Upper(name[ch]) else 0x20
  }

  /**
    The four-byte directory ID: "ROOT" written as an integer for the first
    directory, else the first four characters of the name in upper case,
    padded with spaces and byte-swapped for a little-endian archive.
  */
  function DirId(order: ByteOrder, i: nat, name: Name): (r: seq<byte>)
    ensures |r| == 4
  {
    if i == 0 then W32(order, 0x524F_4F54)
    else
      var t := [IdByte(name, 0), IdByte(name, 1), IdByte(name, 2), IdByte(name, 3)];
      if order == Big then t else [t[3], t[2], t[1], t[0]]
  }

  /** `Folder::GetFileCount`: both counts cast to 16 bits and summed in 16 bits. */
  function FileCount(d: DirView): (r: nat)
    ensures r < 0x1_0000
  {
    (|d.files| % 0x1_0000 + |d.subdirs| % 0x1_0000) % 0x1_0000
  }

  /** The count is the number of files and subfolders modulo 2^16 (include/Archive.hpp:105). */
  lemma FileCountValue(d: DirView)
    ensures FileCount(d) == (|d.files| + |d.subdirs|) % 0x1_0000
  {
    var f, s := |d.files|, |d.subdirs|;
    assert f == (f / 0x1_0000) * 0x1_0000 + f % 0x1_0000;
    assert s == (s / 0x1_0000) * 0x1_0000 + s % 0x1_0000;
    assert f + s == (f / 0x1_0000 + s / 0x1_0000) * 0x1_0000 + (f % 0x1_0000 + s % 0x1_0000);
    ModAddMultiple(f / 0x1_0000 + s / 0x1_0000, 0x1_0000, f % 0x1_0000 + s % 0x1_0000);
  }

  // ---------------------------------------------------------------------
  // Records
  // ---------------------------------------------------------------------

  /** ID, name offset, name hash, entry count (files + subfolders + 2) and index of the first entry. */
  function DirRecord(order: ByteOrder, i: nat, d: DirView, t: StrTable, first: nat): (r: seq<byte>)
    ensures |r| == 16
  {
    DirId(order, i, d.name) + W32(order, Offset(t, d.name) % TWO_32) + W16(order, HashOf(d.name))
    + W16(order, (FileCount(d) + 2) % 0x1_0000) + W32(order, first % TWO_32)
  }

  /** A file entry: index, hash, attribute 0x11, 16-bit name offset, data offset, size and a zero word. */
  function FileEntry(order: ByteOrder, index: nat, f: FileView, t: StrTable, off: nat): (r: seq<byte>)
    ensures |r| == 20
  {
    W16(order, index % 0x1_0000) + W16(order, HashOf(f.name)) + [0x11, 0x00]
    + W16(order, Offset(t, f.name) % 0x1_0000) + W32(order, off % TWO_32) + W32(order, |f.data|) + W32(order, 0)
  }

  /** A subfolder entry: 0xFFFF, hash, attribute 0x02, name offset, the folder's index, 0x10 and a zero word. */
  function LinkEntry(order: ByteOrder, l: Link, t: StrTable): (r: seq<byte>)
    ensures |r| == 20
  {
    W16(order, 0xFFFF) + W16(order, HashOf(l.name)) + [0x02, 0x00]
    + W16(order, Offset(t, l.name) % 0x1_0000) + W32(order, l.index % TWO_32) + W32(order, 0x10) + W32(order, 0)
  }

  /** The "." entry of directory `i`: it points at the directory itself. */
  function DotEntry(order: ByteOrder, i: nat): (r: seq<byte>)
    ensures |r| == 20
  {
    W16(order, 0xFFFF) + W16(order, HashOf(DOT)) + [0x02, 0x00]
    + W16(order, 0) + W32(order, i % TWO_32) + W32(order, 0x10) + W32(order, 0)
  }

  /** The index ".." points at: the parent's, or 0xFFFFFFFF for a folder without one. */
  function ParentWord(parent: Option<nat>): u32 {
    if parent.Some? then parent.value % TWO_32 else 0xFFFF_FFFF
  }

  function DotDotEntry(order: ByteOrder, parent: Option<nat>): (r: seq<byte>)
    ensures |r| == 20
  {
    W16(order, 0xFFFF) + W16(order, HashOf(DOTDOT)) + [0x02, 0x00]
    + W16(order, 2) + W32(order, ParentWord(parent)) + W32(order, 0x10) + W32(order, 0)
  }

  // ---------------------------------------------------------------------
  // File data
  // ---------------------------------------------------------------------

  /** `PadTo32(size) - size` in 32-bit arithmetic: the zero bytes written after a file. */
  function PadAfter(n: u32): nat {
    (PadTo32(n) + TWO_32 - n) % TWO_32
  }

  function FileBlock(f: FileView): seq<byte> {
    f.data + Zeros(PadAfter(|f.data|))
  }

  function Blocks(fs: seq<FileView>): seq<byte> {
    if fs == [] then [] else Blocks(fs[..|fs| - 1]) + FileBlock(fs[|fs| - 1])
  }

  function DataSection(flat: seq<DirView>): seq<byte> {
    if flat == [] then [] else DataSection(flat[..|flat| - 1]) + Blocks(flat[|flat| - 1].files)
  }

  // ---------------------------------------------------------------------
  // Sections
  // ---------------------------------------------------------------------

  /**
    The entries of files `fs` when the data stream already holds `before`:
    the first file gets index `first` and data offset `|before|`, each next
    one the next index and the offset after the block before it.
  */
  function FileEntries(order: ByteOrder, fs: seq<FileView>, t: StrTable, first: nat, before: seq<byte>): (r: seq<byte>)
    ensures |r| == 20 * |fs|
  {
    if fs == [] then []
    else FileEntry(order, first, fs[0], t, |before|) + FileEntries(order, fs[1..], t, first + 1, before + FileBlock(fs[0]))
  }

  function LinkEntries(order: ByteOrder, ls: seq<Link>, t: StrTable): (r: seq<byte>)
    ensures |r| == 20 * |ls|
  {
    if ls == [] then [] else LinkEntries(order, ls[..|ls| - 1], t) + LinkEntry(order, ls[|ls| - 1], t)
  }

  /** Directory `i`'s entries, in order: files, subfolders, ".", "..". */
  function DirEntries(order: ByteOrder, i: nat, d: DirView, t: StrTable, first: nat, before: seq<byte>): (r: seq<byte>)
    ensures |r| == 20 * (|d.files| + |d.subdirs| + 2)
  {
    FileEntries(order, d.files, t, first, before) + LinkEntries(order, d.subdirs, t) + DotEntry(order, i) + DotDotEntry(order, d.parent)
  }

  function DirSection(order: ByteOrder, flat: seq<DirView>, t: StrTable): (r: seq<byte>)
    ensures |r| == 16 * |flat|
  {
    if flat == [] then []
    else
      var init := flat[..|flat| - 1];
      DirSection(order, init, t) + DirRecord(order, |init|, flat[|flat| - 1], t, EntryCount(init))
  }

  function EntrySection(order: ByteOrder, flat: seq<DirView>, t: StrTable): (r: seq<byte>)
    ensures |r| == 20 * EntryCount(flat)
  {
    if flat == [] then []
    else
      var init := flat[..|flat| - 1];
      EntrySection(order, init, t) + DirEntries(order, |init|, flat[|flat| - 1], t, EntryCount(init), DataSection(init))
  }

  // ---------------------------------------------------------------------
  // Headers
  // ---------------------------------------------------------------------

  /** Consecutive 32-bit words. */
  function Words(order: ByteOrder, ws: seq<u32>): (r: seq<byte>)
    ensures |r| == 4 * |ws|
  {
    if ws == [] then [] else Words(order, ws[..|ws| - 1]) + W32(order, ws[|ws| - 1])
  }

  /** Magic, total size, file-system offset 0x20, file-system size, data size twice, two zero words. */
  function Header(order: ByteOrder, s: Sizes): (r: seq<byte>)
    ensures |r| == 0x20
  {
    Words(order, [0x5241_5243, s.total, 0x20, (0x20 + s.dirEntries + s.fileEntries + s.strTable) % TWO_32,
                  s.fileData, s.fileData, 0, 0])
  }

  /** Directory count, directory offset, entry count, entry offset, table size and table offset. */
  function FsWords(s: Sizes, dirs: nat, count: nat): (r: seq<u32>)
    ensures |r| == 6
  {
    [dirs % TWO_32, 0x20, count % TWO_32, (0x20 + s.dirEntries) % TWO_32, s.strTable,
     (0x20 + s.dirEntries + s.fileEntries) % TWO_32]
  }

  /** The file-system header: its six words, then the entry count in 16 bits and padding. */
  function FsHeader(order: ByteOrder, s: Sizes, dirs: nat, count: nat): (r: seq<byte>)
    ensures |r| == 0x20
  {
    Words(order, FsWords(s, dirs, count)) + (W16(order, count % 0x1_0000) + [0x00, 0x00] + W32(order, 0))
  }

  // ---------------------------------------------------------------------
  // Sizes and the whole image
  // ---------------------------------------------------------------------

  function RawFilesSum(fs: seq<FileView>): nat {
    if fs == [] then 0 else RawFilesSum(fs[..|fs| - 1]) + RoundUp32(|fs[|fs| - 1].data|)
  }

  function RawDataSum(flat: seq<DirView>): nat {
    if flat == [] then 0 else RawDataSum(flat[..|flat| - 1]) + RawFilesSum(flat[|flat| - 1].files)
  }

  /** The section sizes without wrap-around. */
  function RawDir(flat: seq<DirView>): nat {
    RoundUp32(16 * |flat|)
  }

  function RawEntries(flat: seq<DirView>): nat {
    RoundUp32(20 * EntryCount(flat))
  }

  function RawTable(flat: seq<DirView>): nat {
    RoundUp32(5 + NewBytes(NameList(flat), {}))
  }

  function RawTotal(flat: seq<DirView>): nat {
    0x40 + RawDir(flat) + RawEntries(flat) + RawDataSum(flat) + RawTable(flat)
  }

  /**
    The archive's sizes, computed without wrapping, stay below 2^32: the
    `uint32_t` arithmetic of `CalculateArchiveSizes` does not overflow and
    the buffer `Save` allocates holds every section.
  */
  ghost predicate Fits(flat: seq<DirView>) {
    RawTotal(flat) + 31 < TWO_32
  }

  /** A section zero-filled up to its reserved size. */
  function Fill(s: seq<byte>, n: nat): (r: seq<byte>)
    requires |s| <= n
    ensures |r| == n
  {
    s + Zeros(n - |s|)
  }

  /** Without wrap-around, a file's block is its size rounded up to 32. */
  lemma FileBlockLength(f: FileView)
    requires |f.data| + 31 < TWO_32
    ensures PadTo32(|f.data|) == RoundUp32(|f.data|)
    ensures |FileBlock(f)| == RoundUp32(|f.data|)
  {
    var n := |f.data|;
    PadTo32Value(n);
    var y := RoundUp32(n) - n;
    assert PadTo32(n) + TWO_32 - n == TWO_32 + y;
    DivModUnique(TWO_32 + y, TWO_32, 1, y);
    assert PadAfter(n) == y;
    assert |FileBlock(f)| == n + y;
  }

  lemma {:induction false} BlocksLength(fs: seq<FileView>)
    requires RawFilesSum(fs) + 31 < TWO_32
    ensures |Blocks(fs)| == RawFilesSum(fs) == FilesDataSum(fs)
    ensures RawFilesSum(fs) % 32 == 0
    decreases |fs|
  {
    if fs != [] {
      var init := fs[..|fs| - 1];
      var last := fs[|fs| - 1];
      var r := RoundUp32(|last.data|);
      assert RawFilesSum(fs) == RawFilesSum(init) + r;
      BlocksLength(init);
      FileBlockLength(last);
      assert |Blocks(fs)| == |Blocks(init)| + |FileBlock(last)|;
      assert FilesDataSum(fs) == FilesDataSum(init) + PadTo32(|last.data|);
      MultipleAdd(RawFilesSum(init), r, 32);
    }
  }

  /** The data section is the sum the sizes pass computed, and every block starts on a multiple of 32. */
  lemma {:induction false} DataSectionLength(flat: seq<DirView>)
    requires RawDataSum(flat) + 31 < TWO_32
    ensures |DataSection(flat)| == RawDataSum(flat) == DataSum(flat)
    ensures RawDataSum(flat) % 32 == 0
    decreases |flat|
  {
    if flat != [] {
      var init := flat[..|flat| - 1];
      var fs := flat[|flat| - 1].files;
      assert RawDataSum(flat) == RawDataSum(init) + RawFilesSum(fs);
      DataSectionLength(init);
      BlocksLength(fs);
      assert |DataSection(flat)| == |DataSection(init)| + |Blocks(fs)|;
      assert DataSum(flat) == DataSum(init) + FilesDataSum(fs);
      MultipleAdd(RawDataSum(init), RawFilesSum(fs), 32);
    }
  }

  lemma PadNoWrap(x: nat)
    requires x + 31 < TWO_32
    ensures x % TWO_32 == x && PadTo32(x) == RoundUp32(x)
  {
    PadTo32Value(x);
  }

  /** Without wrap-around the section sizes are the plain sums rounded up to 32. */
  lemma SizesValue(flat: seq<DirView>)
    requires Fits(flat)
    ensures SizesOf(flat).dirEntries == RawDir(flat)
    ensures SizesOf(flat).fileEntries == RawEntries(flat)
    ensures SizesOf(flat).fileData == RawDataSum(flat)
    ensures SizesOf(flat).strTable == RawTable(flat)
  {
    var d, e, data, n := 16 * |flat|, 20 * EntryCount(flat), DataSum(flat), 5 + NewBytes(NameList(flat), {});
    DataSectionLength(flat);
    assert d <= RawDir(flat) && e <= RawEntries(flat) && n <= RawTable(flat);
    PadNoWrap(d);
    PadNoWrap(e);
    PadNoWrap(n);
    SmallMod(data);
  }

  /** Without wrap-around the total is the plain sum of the sections and the header, rounded up to 32. */
  lemma SizesTotal(flat: seq<DirView>)
    requires Fits(flat)
    ensures SizesOf(flat).total == RoundUp32(RawTotal(flat))
  {
    SizesValue(flat);
    var z := SizesOf(flat);
    var size := RawTotal(flat);
    assert size == 0x40 + z.dirEntries + z.fileEntries + z.fileData + z.strTable;
    PadNoWrap(size);
    SizesTotalStep(flat, size);
  }

  lemma SizesTotalStep(flat: seq<DirView>, size: nat)
    requires size == 0x40 + SizesOf(flat).dirEntries + SizesOf(flat).fileEntries + SizesOf(flat).fileData
                     + SizesOf(flat).strTable
    requires size % TWO_32 == size
    ensures SizesOf(flat).total == PadTo32(size)
  {
  }

  /**
    Every section `Save` writes fits the size `CalculateArchiveSizes`
    reserved for it, and the sections together fit the buffer.
  */
  lemma SectionsFit(order: ByteOrder, flat: seq<DirView>)
    requires Fits(flat)
    ensures |DirSection(order, flat, TableOf(flat))| <= SizesOf(flat).dirEntries
    ensures |EntrySection(order, flat, TableOf(flat))| <= SizesOf(flat).fileEntries
    ensures |TableOf(flat).bytes| <= SizesOf(flat).strTable
    ensures |DataSection(flat)| == SizesOf(flat).fileData
    ensures 0x40 + SizesOf(flat).dirEntries + SizesOf(flat).fileEntries + SizesOf(flat).strTable
            + SizesOf(flat).fileData <= SizesOf(flat).total
  {
    SizesValue(flat);
    SizesTotal(flat);
    TableOfHolds(flat);
    DataSectionLength(flat);
  }

  /** The whole buffer `Save` returns for an uncompressed archive. */
  function SaveImage(order: ByteOrder, flat: seq<DirView>): (r: seq<byte>)
    requires Fits(flat)
    ensures |r| == SizesOf(flat).total
  {
    var s := SizesOf(flat);
    var t := TableOf(flat);
    SectionsFit(order, flat);
    var body := Header(order, s) + FsHeader(order, s, |flat|, EntryCount(flat))
                + Fill(DirSection(order, flat, t), s.dirEntries)
                + Fill(EntrySection(order, flat, t), s.fileEntries)
                + Fill(t.bytes, s.strTable)
                + Fill(DataSection(flat), s.fileData);
    Fill(body, s.total)
  }
}
