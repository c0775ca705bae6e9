/**
  `Rarc::Load` (src/Archive.cpp:583-715): the optional Yaz0/Yay0
  unwrapping, the magic check that selects the byte order, the header and
  file-system header reads, and the directory loop with its entry loop and
  name reads.

  The stream is a byte sequence with an explicit cursor; a read that runs
  past its end is `Corrupt` (the source does not check).  Folders are
  numbered by their position in the directory list, so a subfolder entry
  becomes the index it names.
*/
module RarcLoad {
  import opened Util
  import opened Bytes
  import opened RarcFormat
  import LzDecode

  const RARC_MAGIC: u32 := 0x5241_5243
  /** "RARC" read from a little-endian archive. */
  const CRAR_MAGIC: u32 := 0x4352_4152
  const YAZ0_MAGIC: u32 := 0x5961_7A30
  const YAY0_MAGIC: u32 := 0x5961_7930
  const NO_INDEX: u32 := 0xFFFF_FFFF

  /** A directory as `Load` fills it: its name, its subfolders (as indices) and its files, in entry order. */
  datatype LoadedDir = LoadedDir(name: Name, subdirs: seq<nat>, files: seq<FileView>)

  /**
    `Load` returns false (`NotArchive`) or true with the directories; a
    failed decompression or a read past the end of the stream is `Corrupt`.
  */
  datatype Outcome = Loaded(order: ByteOrder, dirs: seq<LoadedDir>) | NotArchive | Corrupt

  /** The fields of the two headers `Load` uses. */
  datatype Hdr = Hdr(fsOffset: u32, fsSize: u32, dirCount: u32, dirOffset: u32, fileOffset: u32,
                     strSize: u32, strOffset: u32)

  /** What one entry adds to its folder. */
  datatype Item = FileItem(file: FileView) | LinkItem(index: nat) | NoItem

  datatype Entries = Entries(subdirs: seq<nat>, files: seq<FileView>)

  // ---------------------------------------------------------------------
  // Specification
  // ---------------------------------------------------------------------

  /**
    The archive bytes: a stream whose big-endian magic is "Yaz0" or "Yay0"
    is decompressed first (src/Archive.cpp:590-602).
  */
  function Unwrap(stream: seq<byte>): (r: Option<seq<byte>>)
    ensures |stream| >= 4 && U32BE(stream, 0) != YAZ0_MAGIC && U32BE(stream, 0) != YAY0_MAGIC ==> r == Some(stream)
  {
    if |stream| < 4 then None
    else if U32BE(stream, 0) == YAZ0_MAGIC then
      match LzDecode.Yaz0Decode(stream)
      case Ok(v) => Some(v)
      case Err(_) => None
    else if U32BE(stream, 0) == YAY0_MAGIC then
      match LzDecode.Yay0DecompressAsWritten(stream)
      case Ok(v) => Some(v)
      case Err(_) => None
    else Some(stream)
  }

  /** The file-system offset and size at 8 and 12, then six words of the file-system header. */
  function ReadHdr(order: ByteOrder, s: seq<byte>): Option<Hdr> {
    if |s| < 16 then None
    else
      var fsOffset := Read32(order, s, 8);
      if fsOffset + 24 > |s| then None
      else Some(Hdr(fsOffset, Read32(order, s, 12), Read32(order, s, fsOffset), Read32(order, s, fsOffset + 4),
                    Read32(order, s, fsOffset + 12), Read32(order, s, fsOffset + 16), Read32(order, s, fsOffset + 20)))
  }

  /** Where a name at table offset `off` starts, in `uint32_t` arithmetic. */
  function NameStart(h: Hdr, off: nat): u32 {
    (h.strOffset + h.fsOffset + off) % TWO_32
  }

  /** The end of the string table as the name loop computes it. */
  function NameBound(h: Hdr): u32 {
    (h.strOffset + h.fsOffset + h.strSize) % TWO_32
  }

  /**
    The name loop: a byte is read; a NUL ends the name, and so does a
    cursor that has reached `bound` (that byte is then dropped).
  */
  function CStr(s: seq<byte>, p: nat, bound: nat, acc: Name): (r: Option<Name>)
    decreases |s| - p
  {
    if p >= |s| then None
    else if s[p] == 0 || p + 1 >= bound then Some(acc)
    else CStr(s, p + 1, bound, acc + [s[p]])
  }

  /**
    One 20-byte entry at `p`: attribute byte and 24-bit name offset, data
    offset or folder index, size.  Bit 0 makes a file whose bytes lie at
    `fsOffset + fsSize + start`; otherwise bit 1 makes a subfolder link unless
    it is "." or "..", or names no folder.
  */
  function ReadEntry(order: ByteOrder, s: seq<byte>, h: Hdr, p: nat): Option<Item> {
    if p + 16 > |s| then None
    else
      var attrs := Read32(order, s, p + 4);
      var attr := attrs / 0x100_0000;
      var start := Read32(order, s, p + 8);
      var size := Read32(order, s, p + 12);
      var name := CStr(s, NameStart(h, attrs % 0x100_0000), NameBound(h), []);
      if name.None? then None
      else if attr % 2 == 1 then
        var d := (h.fsOffset + h.fsSize + start) % TWO_32;
        if d + size > |s| then None else Some(FileItem(FileView(name.value, s[d..d + size])))
      else if (attr / 2) % 2 == 1 && start != NO_INDEX && name.value != DOTDOT && name.value != DOT then
        if start < h.dirCount then Some(LinkItem(start)) else None
      else Some(NoItem)
  }

  function AddItem(e: Entries, item: Item): Entries {
    match item
    case FileItem(f) => e.(files := e.files + [f])
    case LinkItem(i) => e.(subdirs := e.subdirs + [i])
    case NoItem => e
  }

  /** The first `n` entries from `base` on, 20 bytes apart. */
  function ReadEntries(order: ByteOrder, s: seq<byte>, h: Hdr, base: nat, n: nat): Option<Entries> {
    if n == 0 then Some(Entries([], []))
    else
      match ReadEntries(order, s, h, base, n - 1)
      case None => None
      case Some(e) =>
        match ReadEntry(order, s, h, base + 20 * (n - 1))
        case None => None
        case Some(item) => Some(AddItem(e, item))
  }

  /** Where directory `i`'s record starts. */
  function DirRecordAt(h: Hdr, i: nat): nat {
    (h.dirOffset + h.fsOffset) % TWO_32 + 16 * i
  }

  /** Where the entries of a directory whose first entry is `first` start, in `uint32_t` arithmetic. */
  function EntriesAt(h: Hdr, first: nat): u32 {
    (h.fileOffset + first * 0x14 + h.fsOffset) % TWO_32
  }

  /** Directory record `i`: name offset at 4, entry count at 10, first entry at 12. */
  function ReadDir(order: ByteOrder, s: seq<byte>, h: Hdr, i: nat): Option<LoadedDir> {
    var r := DirRecordAt(h, i);
    if r + 16 > |s| then None
    else
      var name := CStr(s, NameStart(h, Read32(order, s, r + 4)), NameBound(h), []);
      var entries := ReadEntries(order, s, h, EntriesAt(h, Read32(order, s, r + 12)), Read16(order, s, r + 10));
      if name.None? || entries.None? then None
      else Some(LoadedDir(name.value, entries.value.subdirs, entries.value.files))
  }

  function ReadDirs(order: ByteOrder, s: seq<byte>, h: Hdr, n: nat): (r: Option<seq<LoadedDir>>)
    ensures r.Some? ==> |r.value| == n
  {
    if n == 0 then Some([])
    else
      match ReadDirs(order, s, h, n - 1)
      case None => None
      case Some(ds) =>
        match ReadDir(order, s, h, n - 1)
        case None => None
        case Some(d) => Some(ds + [d])
  }

  /** The byte order the archive magic selects, if it is an archive magic at all. */
  function OrderOf(magic: u32): Option<ByteOrder> {
    if magic == RARC_MAGIC then Some(Big)
    else if magic == CRAR_MAGIC then Some(Little)
    else None
  }

  /** `Rarc::Load` on a stream. */
  function LoadSpec(stream: seq<byte>): Outcome {
    match Unwrap(stream)
    case None => Corrupt
    case Some(s) =>
      if |s| < 4 then Corrupt
      else
        match OrderOf(U32BE(s, 0))
        case None => NotArchive
        case Some(order) =>
          match ReadHdr(order, s)
          case None => Corrupt
          case Some(h) =>
            match ReadDirs(order, s, h, h.dirCount)
            case None => Corrupt
            case Some(ds) => Loaded(order, ds)
  }

  // ---------------------------------------------------------------------
  // Properties of the specification
  // ---------------------------------------------------------------------

  /**
    `Load` returns false exactly when the (unwrapped) magic is neither
    "RARC" nor its byte-reversal, and a little-endian archive is one whose
    magic reads reversed.
  */
  lemma LoadRejectsExactly(stream: seq<byte>)
    ensures LoadSpec(stream) == NotArchive <==>
            (Unwrap(stream).Some? && |Unwrap(stream).value| >= 4
             && U32BE(Unwrap(stream).value, 0) != RARC_MAGIC && U32BE(Unwrap(stream).value, 0) != CRAR_MAGIC)
    ensures LoadSpec(stream).Loaded? ==> (LoadSpec(stream).order == Little <==> U32BE(Unwrap(stream).value, 0) == CRAR_MAGIC)
  {
  }

  /** A loaded archive has exactly as many folders as the header's directory count. */
  lemma LoadedCount(stream: seq<byte>)
    requires LoadSpec(stream).Loaded?
    ensures var s := Unwrap(stream).value;
            |LoadSpec(stream).dirs| == ReadHdr(LoadSpec(stream).order, s).value.dirCount
  {
  }

  /** Every subfolder index a loaded folder holds names one of the folders. */
  /** Every index in `links` is below `m`. */
  predicate Below(links: seq<nat>, m: nat) {
    forall k :: 0 <= k < |links| ==> links[k] < m
  }

  /** Every directory of `ds` links only below `m`. */
  predicate AllBelow(ds: seq<LoadedDir>, m: nat) {
    forall i :: 0 <= i < |ds| ==> Below(ds[i].subdirs, m)
  }

  lemma {:induction false} EntriesLinksInRange(order: ByteOrder, s: seq<byte>, h: Hdr, base: nat, n: nat)
    requires ReadEntries(order, s, h, base, n).Some?
    ensures Below(ReadEntries(order, s, h, base, n).value.subdirs, h.dirCount)
  {
    if n > 0 {
      EntriesLinksInRange(order, s, h, base, n - 1);
    }
  }

  /** Every subfolder index the first `n` directories hold names one of the archive's folders. */
  lemma {:induction false} DirsLinksInRange(order: ByteOrder, s: seq<byte>, h: Hdr, n: nat)
    requires ReadDirs(order, s, h, n).Some?
    ensures AllBelow(ReadDirs(order, s, h, n).value, h.dirCount)
  {
    if n > 0 {
      DirsSnoc(order, s, h, n);
      var prev := ReadDirs(order, s, h, n - 1).value;
      var d := ReadDir(order, s, h, n - 1).value;
      DirsLinksInRange(order, s, h, n - 1);
      DirLinksInRange(order, s, h, n - 1);
      BelowSnoc(prev, d, h.dirCount);
    }
  }

  /** The first `n` directories read as the first `n - 1` followed by the last one. */
  lemma DirsSnoc(order: ByteOrder, s: seq<byte>, h: Hdr, n: nat)
    requires n > 0 && ReadDirs(order, s, h, n).Some?
    ensures ReadDirs(order, s, h, n - 1).Some? && ReadDir(order, s, h, n - 1).Some?
    ensures ReadDirs(order, s, h, n).value == ReadDirs(order, s, h, n - 1).value + [ReadDir(order, s, h, n - 1).value]
  {
  }

  lemma BelowSnoc(prev: seq<LoadedDir>, d: LoadedDir, m: nat)
    requires AllBelow(prev, m)
    requires Below(d.subdirs, m)
    ensures AllBelow(prev + [d], m)
  {
  }

  /** A directory that reads links only to folders the header counts. */
  lemma DirLinksInRange(order: ByteOrder, s: seq<byte>, h: Hdr, i: nat)
    requires ReadDir(order, s, h, i).Some?
    ensures Below(ReadDir(order, s, h, i).value.subdirs, h.dirCount)
  {
    DirSubdirs(order, s, h, i);
    var r := DirRecordAt(h, i);
    EntriesLinksInRange(order, s, h, EntriesAt(h, Read32(order, s, r + 12)), Read16(order, s, r + 10));
  }

  /** A directory that reads has the subfolders its entries give. */
  lemma DirSubdirs(order: ByteOrder, s: seq<byte>, h: Hdr, i: nat)
    requires ReadDir(order, s, h, i).Some?
    ensures DirRecordAt(h, i) + 16 <= |s|
    ensures var r := DirRecordAt(h, i);
            var es := ReadEntries(order, s, h, EntriesAt(h, Read32(order, s, r + 12)), Read16(order, s, r + 10));
            es.Some? && ReadDir(order, s, h, i).value.subdirs == es.value.subdirs
  {
  }

  /** A loaded archive links only among its own folders. */
  lemma LoadedClosed(stream: seq<byte>)
    requires LoadSpec(stream).Loaded?
    ensures var ds := LoadSpec(stream).dirs;
            forall i, k :: 0 <= i < |ds| && 0 <= k < |ds[i].subdirs| ==> ds[i].subdirs[k] < |ds|
  {
    var s := Unwrap(stream).value;
    var order := LoadSpec(stream).order;
    var h := ReadHdr(order, s).value;
    var ds := LoadSpec(stream).dirs;
    DirsLinksInRange(order, s, h, h.dirCount);
    assert ds == ReadDirs(order, s, h, h.dirCount).value;
    forall i, k | 0 <= i < |ds| && 0 <= k < |ds[i].subdirs|
      ensures ds[i].subdirs[k] < |ds|
    {
      assert Below(ds[i].subdirs, h.dirCount);
    }
  }

  /** The first `n` entries fail to read once any earlier prefix fails. */
  lemma {:induction false} EntriesFailStays(order: ByteOrder, s: seq<byte>, h: Hdr, base: nat, i: nat, n: nat)
    requires i <= n && ReadEntries(order, s, h, base, i).None?
    ensures ReadEntries(order, s, h, base, n).None?
    decreases n - i
  {
    if i < n {
      EntriesFailStays(order, s, h, base, i + 1, n);
    }
  }

  lemma {:induction false} DirsFailStays(order: ByteOrder, s: seq<byte>, h: Hdr, i: nat, n: nat)
    requires i <= n && ReadDirs(order, s, h, i).None?
    ensures ReadDirs(order, s, h, n).None?
    decreases n - i
  {
    if i < n {
      DirsFailStays(order, s, h, i + 1, n);
    }
  }

  // ---------------------------------------------------------------------
  // The loops
  // ---------------------------------------------------------------------

  /** The name loop of src/Archive.cpp:650-654 and 681-685. */
  method ReadName(s: seq<byte>, start: nat, bound: nat) returns (r: Option<Name>)
    ensures r == CStr(s, start, bound, [])
  {
    var p := start;
    var name: Name := [];
    while true
      invariant CStr(s, start, bound, []) == CStr(s, p, bound, name)
      decreases |s| - p
    {
      if p >= |s| {
        return None;
      }
      var c := s[p];
      p := p + 1;
      if c == 0 || p >= bound {
        return Some(name);
      }
      name := name + [c];
    }
  }

  lemma EntriesStep(order: ByteOrder, s: seq<byte>, h: Hdr, base: nat, f: nat, e: Entries, item: Option<Item>)
    requires ReadEntries(order, s, h, base, f) == Some(e)
    requires item == ReadEntry(order, s, h, base + 20 * f)
    ensures item.None? ==> ReadEntries(order, s, h, base, f + 1).None?
    ensures item.Some? ==> ReadEntries(order, s, h, base, f + 1) == Some(AddItem(e, item.value))
  {
  }

  /** One pass of the entry loop: the entries read so far, with entry `f` added, or the failure it hits. */
  method EntryStep(order: ByteOrder, s: seq<byte>, h: Hdr, base: nat, f: nat, e: Entries) returns (next: Option<Entries>)
    requires ReadEntries(order, s, h, base, f) == Some(e)
    ensures next == ReadEntries(order, s, h, base, f + 1)
  {
    var item := ReadEntry(order, s, h, base + 20 * f);
    EntriesStep(order, s, h, base, f, e, item);
    if item.None? {
      return None;
    }
    next := Some(AddItem(e, item.value));
  }

  /** The entry loop of one directory (src/Archive.cpp:663-711). */
  method LoadEntries(order: ByteOrder, s: seq<byte>, h: Hdr, base: nat, n: nat) returns (r: Option<Entries>)
    ensures r == ReadEntries(order, s, h, base, n)
  {
    r := Some(Entries([], []));
    var f := 0;
    while f < n && r.Some?
      invariant f <= n
      invariant r == ReadEntries(order, s, h, base, f)
    {
      r := EntryStep(order, s, h, base, f, r.value);
      f := f + 1;
    }
    if r.None? {
      EntriesFailStays(order, s, h, base, f, n);
    }
  }

  lemma DirFromParts(order: ByteOrder, s: seq<byte>, h: Hdr, i: nat, name: Option<Name>, entries: Option<Entries>)
    requires DirRecordAt(h, i) + 16 <= |s|
    requires name == CStr(s, NameStart(h, Read32(order, s, DirRecordAt(h, i) + 4)), NameBound(h), [])
    requires entries == ReadEntries(order, s, h, EntriesAt(h, Read32(order, s, DirRecordAt(h, i) + 12)),
                                    Read16(order, s, DirRecordAt(h, i) + 10))
    ensures name.None? || entries.None? ==> ReadDir(order, s, h, i).None?
    ensures name.Some? && entries.Some? ==>
              ReadDir(order, s, h, i) == Some(LoadedDir(name.value, entries.value.subdirs, entries.value.files))
  {
  }

  /** One directory record, its name and its entries. */
  method LoadDir(order: ByteOrder, s: seq<byte>, h: Hdr, i: nat) returns (r: Option<LoadedDir>)
    ensures r == ReadDir(order, s, h, i)
  {
    var at := DirRecordAt(h, i);
    if at + 16 > |s| {
      return None;
    }
    var nameOffset := Read32(order, s, at + 4);
    var filenum := Read16(order, s, at + 10);
    var fileoff := Read32(order, s, at + 12);
    var name := ReadName(s, NameStart(h, nameOffset), NameBound(h));
    var entries := LoadEntries(order, s, h, EntriesAt(h, fileoff), filenum);
    DirFromParts(order, s, h, i, name, entries);
    if name.None? || entries.None? {
      return None;
    }
    r := Some(LoadedDir(name.value, entries.value.subdirs, entries.value.files));
  }

  /** The directory loop (src/Archive.cpp:633-713). */
  method LoadDirs(order: ByteOrder, s: seq<byte>, h: Hdr) returns (r: Option<seq<LoadedDir>>)
    ensures r == ReadDirs(order, s, h, h.dirCount)
  {
    var ds: seq<LoadedDir> := [];
    var i := 0;
    while i < h.dirCount
      invariant i <= h.dirCount
      invariant ReadDirs(order, s, h, i) == Some(ds)
    {
      var d := LoadDir(order, s, h, i);
      if d.None? {
        DirsFailStays(order, s, h, i + 1, h.dirCount);
        return None;
      }
      ds := ds + [d.value];
      i := i + 1;
    }
    r := Some(ds);
  }

  /** The decompression step of `Load`. */
  method UnwrapStream(stream: seq<byte>) returns (r: Option<seq<byte>>)
    ensures r == Unwrap(stream)
  {
    if |stream| < 4 {
      return None;
    }
    var magic := U32BE(stream, 0);
    if magic == YAZ0_MAGIC {
      var d := LzDecode.Yaz0Decode(stream);
      r := if d.Ok? then Some(d.value) else None;
    } else if magic == YAY0_MAGIC {
      var d := LzDecode.Yay0DecompressAsWritten(stream);
      r := if d.Ok? then Some(d.value) else None;
    } else {
      r := Some(stream);
    }
  }

  /** The header reads of `Load`. */
  method LoadHeader(order: ByteOrder, s: seq<byte>) returns (r: Option<Hdr>)
    ensures r == ReadHdr(order, s)
  {
    if |s| < 16 {
      return None;
    }
    var fsOffset := Read32(order, s, 8);
    var fsSize := Read32(order, s, 12);
    if fsOffset + 24 > |s| {
      return None;
    }
    r := Some(Hdr(fsOffset, fsSize, Read32(order, s, fsOffset), Read32(order, s, fsOffset + 4),
                  Read32(order, s, fsOffset + 12), Read32(order, s, fsOffset + 16), Read32(order, s, fsOffset + 20)));
  }

  /** `Rarc::Load`: unwrap, check the magic, read the headers, then every directory. */
  method Load(stream: seq<byte>) returns (r: Outcome)
    ensures r == LoadSpec(stream)
  {
    var unwrapped := UnwrapStream(stream);
    if unwrapped.None? {
      return Corrupt;
    }
    var s := unwrapped.value;
    if |s| < 4 {
      return Corrupt;
    }
    var magic := U32BE(s, 0);
    var order := Big;
    if magic == CRAR_MAGIC {
      order := Little;
    }
    if magic != RARC_MAGIC && magic != CRAR_MAGIC {
      return NotArchive;
    }
    var h := LoadHeader(order, s);
    if h.None? {
      return Corrupt;
    }
    var ds := LoadDirs(order, s, h.value);
    if ds.None? {
      return Corrupt;
    }
    r := Loaded(order, ds.value);
  }
}
