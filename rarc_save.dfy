/**
  `Rarc::Save` (src/Archive.cpp:375-580): the two passes over the directory
  list, the loops that write the directory records, the entries and the
  file data, and the optional compression of the finished image.

  Each stream of the source is a growing byte sequence here; writing a
  record is appending the record `RarcLayout` defines for it.
*/
module RarcSave {
  import opened Util
  import opened Bytes
  import opened RarcFormat
  import opened RarcLayout
  import LzEncode
  import opened LzDecode

  /** The compression argument of `Save`. */
  datatype Compression = NoCompression | Yay0 | Yaz0

  // ---------------------------------------------------------------------
  // Prefix steps of the section functions
  // ---------------------------------------------------------------------

  /** Writing the k-th file's entry leaves the entries of the files after it to write. */
  lemma FileEntriesStep(order: ByteOrder, fs: seq<FileView>, t: StrTable, k: nat, index: nat, before: seq<byte>, acc: seq<byte>)
    requires k < |fs|
    ensures acc + FileEntries(order, fs[k..], t, index, before)
            == (acc + FileEntry(order, index, fs[k], t, |before|))
               + FileEntries(order, fs[k + 1..], t, index + 1, before + FileBlock(fs[k]))
  {
    assert fs[k..][1..] == fs[k + 1..];
    Append3(acc, FileEntry(order, index, fs[k], t, |before|), FileEntries(order, fs[k + 1..], t, index + 1, before + FileBlock(fs[k])));
  }

  lemma Append3(a: seq<byte>, b: seq<byte>, c: seq<byte>)
    ensures a + (b + c) == (a + b) + c
  {
  }

  lemma BlocksStep(fs: seq<FileView>, j: nat, acc: seq<byte>)
    requires j < |fs|
    ensures acc + Blocks(fs[..j + 1]) == (acc + Blocks(fs[..j])) + FileBlock(fs[j])
  {
    assert fs[..j + 1][..j] == fs[..j];
  }

  lemma LinkEntriesStep(order: ByteOrder, ls: seq<Link>, t: StrTable, j: nat, acc: seq<byte>)
    requires j < |ls|
    ensures acc + LinkEntries(order, ls[..j + 1], t) == (acc + LinkEntries(order, ls[..j], t)) + LinkEntry(order, ls[j], t)
  {
    assert ls[..j + 1][..j] == ls[..j];
    assert LinkEntries(order, ls[..j + 1], t) == LinkEntries(order, ls[..j], t) + LinkEntry(order, ls[j], t);
    Append3(acc, LinkEntries(order, ls[..j], t), LinkEntry(order, ls[j], t));
  }

  lemma Append4(a: seq<byte>, b: seq<byte>, c: seq<byte>, d: seq<byte>, e: seq<byte>)
    ensures a + (b + c + d + e) == (((a + b) + c) + d) + e
  {
  }

  lemma SectionStep(order: ByteOrder, flat: seq<DirView>, t: StrTable, i: nat)
    requires i < |flat|
    ensures DirSection(order, flat[..i + 1], t)
            == DirSection(order, flat[..i], t) + DirRecord(order, i, flat[i], t, EntryCount(flat[..i]))
    ensures EntrySection(order, flat[..i + 1], t)
            == EntrySection(order, flat[..i], t)
               + DirEntries(order, i, flat[i], t, EntryCount(flat[..i]), DataSection(flat[..i]))
    ensures DataSection(flat[..i + 1]) == DataSection(flat[..i]) + Blocks(flat[i].files)
    ensures EntryCount(flat[..i + 1]) == EntryCount(flat[..i]) + 2 + |flat[i].subdirs| + |flat[i].files|
  {
    assert flat[..i + 1][..i] == flat[..i];
  }

  // ---------------------------------------------------------------------
  // The structure loops (src/Archive.cpp:421-521)
  // ---------------------------------------------------------------------

  /**
    The file entries of one directory and their data: the k-th file gets
    index `first + k` and the data offset the data stream had reached.
  */
  /**
    One file (src/Archive.cpp:454-474): its entry, then its bytes and the
    zero padding after them; the entries still to write shrink by one.
  */
  method WriteFile(order: ByteOrder, fs: seq<FileView>, t: StrTable, k: nat, index: nat,
                   entries: seq<byte>, data: seq<byte>, ghost target: seq<byte>, ghost data0: seq<byte>)
    returns (entries': seq<byte>, data': seq<byte>)
    requires k < |fs|
    requires entries + FileEntries(order, fs[k..], t, index, data) == target
    requires data == data0 + Blocks(fs[..k])
    ensures entries' + FileEntries(order, fs[k + 1..], t, index + 1, data') == target
    ensures data' == data0 + Blocks(fs[..k + 1])
  {
    FileEntriesStep(order, fs, t, k, index, data, entries);
    BlocksStep(fs, k, data0);
    entries' := entries + FileEntry(order, index, fs[k], t, |data|);
    data' := data + FileBlock(fs[k]);
  }

  method WriteFiles(order: ByteOrder, fs: seq<FileView>, t: StrTable, first: nat, entries: seq<byte>, data: seq<byte>)
    returns (entries': seq<byte>, data': seq<byte>, index: nat)
    ensures entries' == entries + FileEntries(order, fs, t, first, data)
    ensures data' == data + Blocks(fs)
    ensures index == first + |fs|
  {
    ghost var target := entries + FileEntries(order, fs, t, first, data);
    entries', data', index := entries, data, first;
    var k := 0;
    assert fs[0..] == fs;
    while k < |fs|
      invariant k <= |fs|
      invariant entries' + FileEntries(order, fs[k..], t, index, data') == target
      invariant data' == data + Blocks(fs[..k])
      invariant index == first + k
    {
      entries', data' := WriteFile(order, fs, t, k, index, entries', data', target, data);
      index := index + 1;
      k := k + 1;
    }
    FilesDone(order, fs, t, k, index, entries', data', data, target);
  }

  /** When the loop ends, every file's entry and block has been written. */
  lemma FilesDone(order: ByteOrder, fs: seq<FileView>, t: StrTable, k: nat, index: nat, entries: seq<byte>, data': seq<byte>,
                  data: seq<byte>, target: seq<byte>)
    requires k == |fs|
    requires entries + FileEntries(order, fs[k..], t, index, data') == target
    requires data' == data + Blocks(fs[..k])
    ensures entries == target && data' == data + Blocks(fs)
  {
    assert fs[..k] == fs;
    EmptyTail(entries, FileEntries(order, fs[k..], t, index, data'));
  }

  lemma EmptyTail(a: seq<byte>, b: seq<byte>)
    requires |b| == 0
    ensures a + b == a
  {
  }

  /** The subfolder entries of one directory, each naming the folder's position in the list. */
  method WriteLinks(order: ByteOrder, ls: seq<Link>, t: StrTable, entries: seq<byte>, index: nat)
    returns (entries': seq<byte>, index': nat)
    ensures entries' == entries + LinkEntries(order, ls, t)
    ensures index' == index + |ls|
  {
    entries', index' := entries, index;
    var k := 0;
    while k < |ls|
      invariant k <= |ls|
      invariant entries' == entries + LinkEntries(order, ls[..k], t)
      invariant index' == index + k
    {
      LinkEntriesStep(order, ls, t, k, entries);
      entries' := entries' + LinkEntry(order, ls[k], t);
      index' := index' + 1;
      k := k + 1;
    }
    assert ls[..k] == ls;
  }

  /** Directory `i`: its record, then its files, subfolders, "." and "..". */
  method WriteDirectory(order: ByteOrder, flat: seq<DirView>, t: StrTable, i: nat,
                        dirs: seq<byte>, entries: seq<byte>, data: seq<byte>, index: nat)
    returns (dirs': seq<byte>, entries': seq<byte>, data': seq<byte>, index': nat)
    requires i < |flat|
    requires dirs == DirSection(order, flat[..i], t)
    requires entries == EntrySection(order, flat[..i], t)
    requires data == DataSection(flat[..i])
    requires index == EntryCount(flat[..i])
    ensures dirs' == DirSection(order, flat[..i + 1], t)
    ensures entries' == EntrySection(order, flat[..i + 1], t)
    ensures data' == DataSection(flat[..i + 1])
    ensures index' == EntryCount(flat[..i + 1])
  {
    var d := flat[i];
    SectionStep(order, flat, t, i);
    dirs' := dirs + DirRecord(order, i, d, t, index);
    entries', data', index' := WriteFiles(order, d.files, t, index, entries, data);
    entries', index' := WriteLinks(order, d.subdirs, t, entries', index');
    Append4(entries, FileEntries(order, d.files, t, index, data), LinkEntries(order, d.subdirs, t),
            DotEntry(order, i), DotDotEntry(order, d.parent));
    entries' := entries' + DotEntry(order, i) + DotDotEntry(order, d.parent);
    index' := index' + 2;
  }

  method WriteStructure(order: ByteOrder, flat: seq<DirView>, t: StrTable)
    returns (dirs: seq<byte>, entries: seq<byte>, data: seq<byte>, index: nat)
    ensures dirs == DirSection(order, flat, t)
    ensures entries == EntrySection(order, flat, t)
    ensures data == DataSection(flat)
    ensures index == EntryCount(flat)
  {
    dirs, entries, data, index := [], [], [], 0;
    var i := 0;
    while i < |flat|
      invariant i <= |flat|
      invariant dirs == DirSection(order, flat[..i], t)
      invariant entries == EntrySection(order, flat[..i], t)
      invariant data == DataSection(flat[..i])
      invariant index == EntryCount(flat[..i])
    {
      dirs, entries, data, index := WriteDirectory(order, flat, t, i, dirs, entries, data, index);
      i := i + 1;
    }
    assert flat[..i] == flat;
  }

  // ---------------------------------------------------------------------
  // Save
  // ---------------------------------------------------------------------

  /** `Util::AlignTo(n, 0x20)` zero bytes appended when `padCompressed` asks for it. */
  function PadCompressed(c: seq<byte>, pad: bool): (r: seq<byte>)
    requires |c| < TWO_32
  {
    if pad && |c| <= AlignTo(|c|, 0x20) then Fill(c, AlignTo(|c|, 0x20)) else c
  }

  /** The buffer `Save` returns for each compression format. */
  function SavedBuffer(order: ByteOrder, flat: seq<DirView>, compression: Compression, pad: bool): (r: Result<seq<byte>>)
    requires Fits(flat)
  {
    match compression
    case NoCompression => Ok(SaveImage(order, flat))
    case Yaz0 => Ok(PadCompressed([], pad))
    case Yay0 =>
      match LzEncode.Yay0CompressAsWritten(SaveImage(order, flat))
      case Err(e) => Err(e)
      case Ok(c) => if |c| < TWO_32 then Ok(PadCompressed(c, pad)) else Err(Overrun)
  }

  /**
    `Rarc::Save`: the sizes pass, the string table, the structure loops and
    the two headers, assembled in a buffer of the computed total size and
    then compressed as asked.
  */
  method Save(order: ByteOrder, flat: seq<DirView>, compression: Compression, pad: bool) returns (r: Result<seq<byte>>)
    requires Fits(flat)
    ensures r == SavedBuffer(order, flat, compression, pad)
    ensures compression == NoCompression ==> r == Ok(SaveImage(order, flat))
  {
    var s := CalculateArchiveSizes(flat);
    var t := BuildStringTable(flat);
    var dirs, entries, data, index := WriteStructure(order, flat, t);
    SectionsFit(order, flat);
    var body := Header(order, s) + FsHeader(order, s, |flat|, index)
                + Fill(dirs, s.dirEntries) + Fill(entries, s.fileEntries)
                + Fill(t.bytes, s.strTable) + Fill(data, s.fileData);
    var image := Fill(body, s.total);
    match compression {
      case NoCompression =>
        r := Ok(image);
      case Yaz0 =>
        r := Ok(PadCompressed([], pad));
      case Yay0 =>
        var c := LzEncode.Yay0CompressAsWritten(image);
        if c.Err? {
          r := Err(c.error);
        } else if |c.value| < TWO_32 {
          r := Ok(PadCompressed(c.value, pad));
        } else {
          r := Err(Overrun);
        }
    }
  }
}
