/**
  The fixed places of a GameCube disc image that `Image::Load` and
  `Image::SaveToFile` use (src/GCM.cpp): the two magics of images this
  reader refuses, the DOL and FST pointers that boot.bin holds at 0x420
  and 0x424, the apploader at 0x2440 and the section sizes in the DOL
  header.

  The disc is a byte sequence and every read is big-endian.  A read that
  runs past the end of the disc, which the source does not check, is a
  failure here.  Arithmetic on `uint32_t` values is reduced modulo 2^32 as
  the source's is.
*/
module GcmDisc {
  import opened Util
  import opened Bytes
  import opened GcmFst
  import opened GcmFstLoad

  /** `'CISO'` and `'NKIT'` as GCC and Clang evaluate a four-character literal: the first character in the top byte. */
  const CISO_MAGIC: u32 := 0x4349_534F
  const NKIT_MAGIC: u32 := 0x4E4B_4954
  const NKIT_AT: nat := 0x200

  /** boot.bin holds the DOL's offset at 0x420, then the FST's offset and size. */
  const DOL_PTR: nat := 0x420
  const FST_PTR: nat := 0x424
  const BOOT_SIZE: nat := 0x440
  const BI2_AT: nat := 0x440
  const BI2_SIZE: nat := 0x2000
  const APPLOADER_AT: nat := 0x2440
  /** The apploader's size and trailer size, at 0x14 into it. */
  const APPLOADER_SIZES: nat := 0x2454
  const APPLOADER_EXTRA: nat := 0x20
  /** The DOL header: 18 section sizes at 0x90, and 0x100 bytes of header before the sections. */
  const DOL_SIZES_AT: nat := 0x90
  const DOL_SECTIONS: nat := 18
  const DOL_HEADER: nat := 0x100
  /** The DOL and the FST start at multiples of 0x100, and the image ends at a multiple of 2048. */
  const SECTION_ALIGN: nat := 0x100
  const DISC_ALIGN: nat := 2048

  const FILES_NAME: Name := [0x66, 0x69, 0x6C, 0x65, 0x73]
  const SYS_NAME: Name := [0x73, 0x79, 0x73]
  const ROOT_NAME: Name := [0x72, 0x6F, 0x6F, 0x74]
  const APPLOADER_NAME: Name := [0x61, 0x70, 0x70, 0x6C, 0x6F, 0x61, 0x64, 0x65, 0x72, 0x2E, 0x69, 0x6D, 0x67]
  const BI2_NAME: Name := [0x62, 0x69, 0x32, 0x2E, 0x62, 0x69, 0x6E]
  const BOOT_NAME: Name := [0x62, 0x6F, 0x6F, 0x74, 0x2E, 0x62, 0x69, 0x6E]
  const FST_NAME: Name := [0x66, 0x73, 0x74, 0x2E, 0x62, 0x69, 0x6E]
  const DOL_NAME: Name := [0x6D, 0x61, 0x69, 0x6E, 0x2E, 0x64, 0x6F, 0x6C]

  // ---------------------------------------------------------------------
  // Reading the disc
  // ---------------------------------------------------------------------

  /** `readUInt32` at byte `at`, or `None` past the end of the disc. */
  function Word(disc: seq<byte>, at: nat): Option<u32> {
    if at + 4 <= |disc| then Some(U32BE(disc, at)) else None
  }

  /** `readBytesTo` of `n` bytes at `at`, or `None` past the end of the disc. */
  function Slice(disc: seq<byte>, at: nat, n: u32): Option<Data> {
    if at + n <= |disc| then var d: Data := disc[at..at + n]; Some(d) else None
  }

  /** `Load` gives up at once on a compressed image: "CISO" at 0 or "NKIT" at 0x200. */
  predicate Compressed(disc: seq<byte>) {
    Word(disc, 0) == Some(CISO_MAGIC) || Word(disc, NKIT_AT) == Some(NKIT_MAGIC)
  }

  /** The `n` section sizes from byte `at` on, added one by one to `acc` as `uint32_t`; `None` past the end. */
  function DolSum(disc: seq<byte>, at: nat, n: nat, acc: u32): Option<u32>
    decreases n
  {
    if n == 0 then Some(acc)
    else if at + 4 > |disc| then None
    else DolSum(disc, at + 4, n - 1, (acc + U32BE(disc, at)) % TWO_32)
  }

  /** The `n` words from byte `at` on, summed without truncation. */
  function WordSum(disc: seq<byte>, at: nat, n: nat): nat
    requires at + 4 * n <= |disc|
    decreases n
  {
    if n == 0 then 0 else U32BE(disc, at) + WordSum(disc, at + 4, n - 1)
  }

  /** The running sum succeeds exactly when all `n` words lie on the disc, and is their sum modulo 2^32. */
  lemma {:induction false} DolSumIsSum(disc: seq<byte>, at: nat, n: nat, acc: u32)
    ensures DolSum(disc, at, n, acc).Some? <==> at + 4 * n <= |disc| || n == 0
    ensures at + 4 * n <= |disc| ==> DolSum(disc, at, n, acc) == Some((acc + WordSum(disc, at, n)) % TWO_32)
    decreases n
  {
    if n > 0 {
      if at + 4 <= |disc| {
        var acc1 := (acc + U32BE(disc, at)) % TWO_32;
        DolSumIsSum(disc, at + 4, n - 1, acc1);
        if at + 4 * n <= |disc| {
          var w := WordSum(disc, at + 4, n - 1);
          ModOfSum(acc + U32BE(disc, at), w);
        }
      }
    }
  }

  /** Reducing a partial sum modulo 2^32 does not change the final remainder. */
  lemma ModOfSum(a: nat, b: nat)
    ensures (a % TWO_32 + b) % TWO_32 == (a + b) % TWO_32
  {
    assert a == (a / TWO_32) * TWO_32 + a % TWO_32;
    ModAddMultiple(a / TWO_32, TWO_32, a % TWO_32 + b);
  }

  /** Where `Load` seeks for the section sizes: `dolOffset + 0x90` as `uint32_t`. */
  function DolSizesAt(dolOffset: u32): nat {
    (dolOffset + DOL_SIZES_AT) % TWO_32
  }

  /**
    The loop of `Load` that sizes the DOL: 0x100 plus the 18 section sizes,
    in `uint32_t` arithmetic.  `None` when a size lies past the end of the disc.
  */
  method ReadDolSize(disc: seq<byte>, dolOffset: u32) returns (size: Option<u32>)
    ensures size == DolSum(disc, DolSizesAt(dolOffset), DOL_SECTIONS, DOL_HEADER)
  {
    var at: nat := DolSizesAt(dolOffset);
    var dolSize: u32 := DOL_HEADER;
    var dfp: nat := 0;
    var ok := true;
    while ok && dfp < DOL_SECTIONS
      invariant dfp <= DOL_SECTIONS
      invariant ok ==> (DolSum(disc, DolSizesAt(dolOffset), DOL_SECTIONS, DOL_HEADER)
                        == DolSum(disc, at, DOL_SECTIONS - dfp, dolSize))
      invariant !ok ==> DolSum(disc, DolSizesAt(dolOffset), DOL_SECTIONS, DOL_HEADER) == None
      decreases DOL_SECTIONS - dfp, if ok then 1 else 0
    {
      if at + 4 > |disc| {
        ok := false;
      } else {
        dolSize := (dolSize + U32BE(disc, at)) % TWO_32;
        at := at + 4;
        dfp := dfp + 1;
      }
    }
    size := if ok then Some(dolSize) else None;
  }

  /** The words `Load` reads before the folders: the FST's offset and size, its entry count, the DOL's offset. */
  datatype Header = Header(fstOffset: u32, fstSize: u32, numEntries: u32, dolOffset: u32)

  /**
    The FST pointers at 0x424 and 0x428, the third word of the FST's root
    entry (the number of entries) and the DOL pointer at 0x420.
  */
  function ReadHeader(disc: seq<byte>): (r: Option<Header>)
    ensures r.Some? ==> FST_PTR + 8 <= |disc| && r.value.fstOffset == U32BE(disc, FST_PTR)
    ensures r.Some? ==> r.value.fstOffset + ENTRY_SIZE <= |disc| && r.value.numEntries == U32BE(disc, r.value.fstOffset + 8)
  {
    if FST_PTR + 8 > |disc| then None
    else
      var fstOffset := U32BE(disc, FST_PTR);
      if fstOffset + ENTRY_SIZE > |disc| then None
      else Some(Header(fstOffset, U32BE(disc, FST_PTR + 4), U32BE(disc, fstOffset + 8), U32BE(disc, DOL_PTR)))
  }

  /** `fstOffset + numEntries * 0xC` as `uint32_t`: where the string table starts. */
  function StringTableAt(h: Header): nat {
    (h.fstOffset + h.numEntries * ENTRY_SIZE) % TWO_32
  }

  /** The folder the entries below the FST's root are read into: `files`, with ID and parent ID 0. */
  function FilesFolder(): Loaded {
    Loaded(FILES_NAME, 0, 0, [])
  }

  /**
    The files `Load` puts in `sys`, in order: the apploader (its size,
    trailer size and 0x20 bytes), bi2.bin (0x2000 bytes at 0x440), boot.bin
    (the first 0x440 bytes), fst.bin (the FST and its strings) and
    main.dol (sized by its header).
  */
  function SysFiles(disc: seq<byte>, h: Header): (r: Option<seq<FileNode>>)
    ensures r.Some? ==> BOOT_SIZE <= |disc| && h.fstOffset + h.fstSize <= |disc|
    ensures r.Some? ==> |r.value| == 5 && r.value[2] == FileNode(BOOT_NAME, disc[..BOOT_SIZE])
    ensures r.Some? ==> r.value[3] == FileNode(FST_NAME, disc[h.fstOffset..h.fstOffset + h.fstSize])
  {
    if APPLOADER_SIZES + 8 > |disc| then None
    else
      var appLen := (U32BE(disc, APPLOADER_SIZES) + U32BE(disc, APPLOADER_SIZES + 4) + APPLOADER_EXTRA) % TWO_32;
      var dolSize := DolSum(disc, DolSizesAt(h.dolOffset), DOL_SECTIONS, DOL_HEADER);
      var apploader := Slice(disc, APPLOADER_AT, appLen);
      var fst := Slice(disc, h.fstOffset, h.fstSize);
      if apploader.None? || fst.None? || dolSize.None? then None
      else
        var dol := Slice(disc, h.dolOffset, dolSize.value);
        if dol.None? then None
        else Some([FileNode(APPLOADER_NAME, apploader.value),
                   FileNode(BI2_NAME, disc[BI2_AT..BI2_AT + BI2_SIZE]),
                   FileNode(BOOT_NAME, disc[..BOOT_SIZE]),
                   FileNode(FST_NAME, fst.value),
                   FileNode(DOL_NAME, dol.value)])
  }

  /**
    What `Image::Load` finds: `Rejected` for a CISO or NKIT image (it
    returns false), `Unreadable` when a read runs past the end of the disc,
    otherwise the folders `LoadDir` lists (`files` first) and the files of
    `sys`.
  */
  datatype DiscOutcome = Rejected | Unreadable | Image(folders: seq<Loaded>, sys: seq<FileNode>)

  function LoadImage(disc: seq<byte>): (r: DiscOutcome)
    ensures r.Rejected? <==> Compressed(disc)
    ensures r.Image? ==> |r.folders| >= 1 && r.folders[0].name == FILES_NAME && r.folders[0].id == 0
    ensures r.Image? ==> BOOT_SIZE <= |disc| && |r.sys| == 5 && r.sys[2] == FileNode(BOOT_NAME, disc[..BOOT_SIZE])
  {
    if Compressed(disc) then Rejected
    else
      match ReadHeader(disc)
      case None => Unreadable
      case Some(h) =>
        match ReadDir(disc, h.fstOffset, StringTableAt(h), 1, h.numEntries, 0, [FilesFolder()])
        case None => Unreadable
        case Some(read) =>
          match SysFiles(disc, h)
          case None => Unreadable
          case Some(sys) => FilesFirst(disc, h, read.0); Image(read.0, sys)
  }

  /** `LoadDir` only appends to the list and adds files: `files` stays first with its name and ID. */
  lemma FilesFirst(disc: seq<byte>, h: Header, ls: seq<Loaded>)
    requires ReadDir(disc, h.fstOffset, StringTableAt(h), 1, h.numEntries, 0, [FilesFolder()]).Some?
    requires ls == ReadDir(disc, h.fstOffset, StringTableAt(h), 1, h.numEntries, 0, [FilesFolder()]).value.0
    ensures |ls| >= 1 && ls[0].name == FILES_NAME && ls[0].id == 0
  {
    ReadDirKeeps(disc, h.fstOffset, StringTableAt(h), 1, h.numEntries, 0, [FilesFolder()], 0);
  }

  /** Reading never renames an earlier folder or changes its ID. */
  lemma {:induction false} ReadDirKeeps(disc: seq<byte>, fstOff: nat, strOff: nat, idx: nat, count: nat, owner: nat,
                                        acc: seq<Loaded>, j: nat)
    requires owner < |acc| && j < |acc|
    requires ReadDir(disc, fstOff, strOff, idx, count, owner, acc).Some?
    ensures var r := ReadDir(disc, fstOff, strOff, idx, count, owner, acc).value.0;
            j < |r| && r[j].name == acc[j].name && r[j].id == acc[j].id && r[j].parentId == acc[j].parentId
    decreases |disc| - idx, 1
  {
    if idx < count {
      EntryKeeps(disc, fstOff, strOff, idx, count, owner, acc, j);
    }
  }

  lemma {:induction false} EntryKeeps(disc: seq<byte>, fstOff: nat, strOff: nat, idx: nat, count: nat, owner: nat,
                                      acc: seq<Loaded>, j: nat)
    requires owner < |acc| && j < |acc| && idx < count
    requires ReadEntry(disc, fstOff, strOff, idx, count, owner, acc).Some?
    ensures var r := ReadEntry(disc, fstOff, strOff, idx, count, owner, acc).value.0;
            j < |r| && r[j].name == acc[j].name && r[j].id == acc[j].id && r[j].parentId == acc[j].parentId
    decreases |disc| - idx, 0
  {
    var e := EntryAt(disc, fstOff + ENTRY_SIZE * idx);
    var name := NameFrom(disc, NamePos(strOff, e.attr), []);
    if e.attr >= NAME_SPAN {
      var acc1 := acc + [Loaded(name.value, idx % TWO_32, e.first, [])];
      var inner := ReadDir(disc, fstOff, strOff, idx + 1, e.second, |acc|, acc1);
      ReadDirKeeps(disc, fstOff, strOff, idx + 1, e.second, |acc|, acc1, j);
      ReadDirKeeps(disc, fstOff, strOff, inner.value.1, count, owner, inner.value.0, j);
    } else {
      var acc1 := Attach(acc, owner, [FileNode(name.value, disc[e.first..e.first + e.second])]);
      ReadDirKeeps(disc, fstOff, strOff, idx + 1, count, owner, acc1, j);
    }
  }

  /** Every folder's ID and parent ID fit the `uint32_t` fields `SetID` and `SetParentID` store them in. */
  predicate Tags32(ls: seq<Loaded>) {
    forall j :: 0 <= j < |ls| ==> ls[j].id < TWO_32 && ls[j].parentId < TWO_32
  }

  /** `LoadDir` gives every folder it creates an ID and a parent ID that are `uint32_t` values. */
  lemma {:induction false} ReadDirTags(disc: seq<byte>, fstOff: nat, strOff: nat, idx: nat, count: nat, owner: nat,
                                       acc: seq<Loaded>)
    requires owner < |acc| && Tags32(acc)
    requires ReadDir(disc, fstOff, strOff, idx, count, owner, acc).Some?
    ensures Tags32(ReadDir(disc, fstOff, strOff, idx, count, owner, acc).value.0)
    decreases |disc| - idx, 1
  {
    if idx < count {
      EntryTags(disc, fstOff, strOff, idx, count, owner, acc);
    }
  }

  lemma {:induction false} EntryTags(disc: seq<byte>, fstOff: nat, strOff: nat, idx: nat, count: nat, owner: nat,
                                     acc: seq<Loaded>)
    requires owner < |acc| && Tags32(acc) && idx < count
    requires ReadEntry(disc, fstOff, strOff, idx, count, owner, acc).Some?
    ensures Tags32(ReadEntry(disc, fstOff, strOff, idx, count, owner, acc).value.0)
    decreases |disc| - idx, 0
  {
    var e := EntryAt(disc, fstOff + ENTRY_SIZE * idx);
    var name := NameFrom(disc, NamePos(strOff, e.attr), []);
    if e.attr >= NAME_SPAN {
      var acc1 := acc + [Loaded(name.value, idx % TWO_32, e.first, [])];
      assert Tags32(acc1);
      var inner := ReadDir(disc, fstOff, strOff, idx + 1, e.second, |acc|, acc1);
      ReadDirTags(disc, fstOff, strOff, idx + 1, e.second, |acc|, acc1);
      ReadDirTags(disc, fstOff, strOff, inner.value.1, count, owner, inner.value.0);
    } else {
      var acc1 := Attach(acc, owner, [FileNode(name.value, disc[e.first..e.first + e.second])]);
      assert Tags32(acc1);
      ReadDirTags(disc, fstOff, strOff, idx + 1, count, owner, acc1);
    }
  }

  /** The reads of `Load` after the folder walk: the apploader, bi2.bin, boot.bin, fst.bin and main.dol. */
  method ReadSys(disc: seq<byte>, h: Header) returns (sys: Option<seq<FileNode>>)
    ensures sys == SysFiles(disc, h)
  {
    sys := None;
    if APPLOADER_SIZES + 8 <= |disc| {
      var appLen := (U32BE(disc, APPLOADER_SIZES) + U32BE(disc, APPLOADER_SIZES + 4) + APPLOADER_EXTRA) % TWO_32;
      var dolSize := ReadDolSize(disc, h.dolOffset);
      var apploader := Slice(disc, APPLOADER_AT, appLen);
      var fst := Slice(disc, h.fstOffset, h.fstSize);
      if apploader.Some? && fst.Some? && dolSize.Some? {
        var dol := Slice(disc, h.dolOffset, dolSize.value);
        if dol.Some? {
          sys := Some([FileNode(APPLOADER_NAME, apploader.value),
                       FileNode(BI2_NAME, disc[BI2_AT..BI2_AT + BI2_SIZE]),
                       FileNode(BOOT_NAME, disc[..BOOT_SIZE]),
                       FileNode(FST_NAME, fst.value),
                       FileNode(DOL_NAME, dol.value)]);
        }
      }
    }
  }

  /**
    Everything `Image::Load` reads, in its order: the magics, the FST
    pointers, the folder walk (`FstReader.LoadDir` from the `files` folder
    at index 1) and the system files.  The folders read carry `uint32_t`
    IDs, and the first of them is `files`.
  */
  method ReadImage(disc: seq<byte>) returns (out: DiscOutcome)
    ensures out == LoadImage(disc)
    ensures out.Image? ==> Tags32(out.folders) && out.folders[0] == Loaded(FILES_NAME, 0, 0, out.folders[0].files)
  {
    if Compressed(disc) {
      out := Rejected;
    } else {
      var h := ReadHeader(disc);
      if h.None? {
        out := Unreadable;
      } else {
        var reader := new FstReader(disc, h.value.fstOffset, StringTableAt(h.value), FilesFolder());
        var ok := reader.LoadDir(0, h.value.numEntries);
        if !ok {
          out := Unreadable;
        } else {
          var sys := ReadSys(disc, h.value);
          if sys.None? {
            out := Unreadable;
          } else {
            out := Image(reader.folders, sys.value);
            ReadDirKeeps(disc, h.value.fstOffset, StringTableAt(h.value), 1, h.value.numEntries, 0, [FilesFolder()], 0);
            ReadDirTags(disc, h.value.fstOffset, StringTableAt(h.value), 1, h.value.numEntries, 0, [FilesFolder()]);
          }
        }
      }
    }
  }

  // ---------------------------------------------------------------------
  // Image::SaveToFile: where the sections go
  // ---------------------------------------------------------------------

  /** The sizes and offsets `SaveToFile` computes before it writes the FST. */
  datatype SavePlan = SavePlan(fstSize: nat, stringTableSize: nat, dolOffset: u32, fstOffset: u32)

  /** `AlignTo(x, y)` for y a power of two at most 2^11, with no 32-bit overflow: the least multiple of y from x. */
  lemma AlignUp(x: u32, y: u32, k: nat)
    requires k <= 11 && y == Pow2(k) && x + y - 1 < TWO_32
    ensures var r := AlignTo(x, y); r % y == 0 && x <= r < x + y
  {
    AlignToIsLeastMultiple(x, y, k);
  }

  lemma Pow2Values()
    ensures Pow2(8) == SECTION_ALIGN && Pow2(11) == DISC_ALIGN
  {
  }

  /**
    The offsets of `SaveToFile`: the FST is 12 bytes for the root and
    `CalculateFstSize` bytes for the rest; the apploader goes at 0x2440, the
    DOL at the next multiple of 0x100 after it, and the FST at the next
    multiple of 0x100 after the DOL.
  */
  method PlanSave(apploaderSize: nat, dolSize: nat, files: Dir) returns (p: SavePlan)
    requires APPLOADER_AT + apploaderSize + dolSize + 2 * SECTION_ALIGN < TWO_32
    ensures p.fstSize == ENTRY_SIZE * (1 + Count(files)) && p.stringTableSize == NameBytes(files)
    ensures p.dolOffset % SECTION_ALIGN == 0
    ensures APPLOADER_AT + apploaderSize <= p.dolOffset < APPLOADER_AT + apploaderSize + SECTION_ALIGN
    ensures p.fstOffset % SECTION_ALIGN == 0
    ensures p.dolOffset + dolSize <= p.fstOffset < p.dolOffset + dolSize + SECTION_ALIGN
  {
    var fst, stringTableSize := CalculateFstSize(files, 0);
    var fstSize := fst + ENTRY_SIZE;
    Pow2Values();
    var tell := APPLOADER_AT + apploaderSize;
    AlignUp(tell, SECTION_ALIGN, 8);
    var dolOffset := AlignTo(tell, SECTION_ALIGN);
    tell := dolOffset + dolSize;
    AlignUp(tell, SECTION_ALIGN, 8);
    var fstOffset := AlignTo(tell, SECTION_ALIGN);
    p := SavePlan(fstSize, stringTableSize, dolOffset, fstOffset);
  }

  /** Where the file data start: after the FST and its string table, which are written as zeros first. */
  function DataStart(p: SavePlan): nat {
    p.fstOffset + p.fstSize + p.stringTableSize
  }

  /** What `FstWriteFolder` writes for the `files` folder, from the image position `DataStart(p)` on. */
  function FstStreams(p: SavePlan, files: Dir): Streams {
    WriteDir(files, ROOT_PARENT, Streams([], [], Zeros(DataStart(p))))
  }

  /**
    The FST pass of `SaveToFile`: `FstWriteFolder` on the `files` folder as
    the root, then zeros up to the next multiple of 2048.  The entries
    written fill the FST buffer of `fstSize` bytes exactly, the names fill
    the string table exactly, and the image ends at `end`, a multiple of
    2048.  (The image before `DataStart(p)` is opaque here and stands as zeros.)
  */
  method WriteFst(p: SavePlan, files: Dir) returns (fst: seq<byte>, strings: seq<byte>, end: nat, padded: nat)
    requires p.fstSize == ENTRY_SIZE * (1 + Count(files)) && p.stringTableSize == NameBytes(files)
    requires 1 + Count(files) <= ROOT_PARENT
    requires |FstStreams(p, files).image| + DISC_ALIGN < TWO_32
    ensures |fst| == p.fstSize && |strings| == p.stringTableSize
    ensures fst == Table(FstStreams(p, files).fst) && strings == FstStreams(p, files).strings
    ensures end == |FstStreams(p, files).image|
    ensures padded % DISC_ALIGN == 0 && end <= padded < end + DISC_ALIGN
  {
    var w := new FstWriter(Zeros(DataStart(p)));
    w.WriteFolder(files, ROOT_PARENT);
    fst, strings := w.fst, w.strings;
    DirStrings(files, ROOT_PARENT, Streams([], [], Zeros(DataStart(p))));
    end := |w.image|;
    Pow2Values();
    AlignUp(end, DISC_ALIGN, 11);
    padded := AlignTo(end, DISC_ALIGN);
  }

  /** The string table written for `d`: its own name unless it is the root, then every name below it once. */
  lemma {:induction false} DirStrings(d: Dir, parent: nat, st: Streams)
    requires |st.fst| + 1 + Count(d) <= ROOT_PARENT
    ensures |WriteDir(d, parent, st).strings|
         == |st.strings| + (if parent == ROOT_PARENT then 0 else |d.name| + 1) + NameBytes(d)
    decreases d, 2
  {
    var o := Opened(d, parent, st);
    SubsStrings(d.subs, |st.fst|, o);
    FilesStrings(d.files, WriteSubs(d.subs, |st.fst|, o));
  }

  lemma {:induction false} SubsStrings(ss: seq<Dir>, parent: nat, st: Streams)
    requires parent != ROOT_PARENT && |st.fst| + SubsCount(ss) <= ROOT_PARENT
    ensures |WriteSubs(ss, parent, st).strings| == |st.strings| + SubsNames(ss)
    decreases ss, 1
  {
    if ss != [] {
      var init := ss[..|ss| - 1];
      SubsStrings(init, parent, st);
      DirStrings(ss[|ss| - 1], parent, WriteSubs(init, parent, st));
    }
  }

  lemma {:induction false} FilesStrings(fs: seq<FileNode>, st: Streams)
    ensures |WriteFiles(fs, st).strings| == |st.strings| + FileNames(fs)
  {
    if fs != [] {
      FilesStrings(fs[..|fs| - 1], st);
    }
  }

  // ---------------------------------------------------------------------
  // The patch of boot.bin
  // ---------------------------------------------------------------------

  /** `writeUInt32` into a buffer at `at`: the four bytes there are replaced. */
  function Put32(s: seq<byte>, at: nat, x: nat): (r: seq<byte>)
    requires at + 4 <= |s|
    ensures |r| == |s|
  {
    s[..at] + Be32(x % TWO_32) + s[at + 4..]
  }

  /**
    The patch of boot.bin in `SaveToFile`: the FST's offset at 0x424, its
    size with the string table at 0x428 and again at 0x42C, then the DOL's
    offset at 0x420.
  */
  function PatchBoot(boot: seq<byte>, dolOffset: nat, fstOffset: nat, fstBytes: nat): (r: seq<byte>)
    requires FST_PTR + 12 <= |boot|
    ensures |r| == |boot|
  {
    var s := Put32(Put32(Put32(boot, FST_PTR, fstOffset), FST_PTR + 4, fstBytes), FST_PTR + 8, fstBytes);
    Put32(s, DOL_PTR, dolOffset)
  }

  lemma Put32Reads(s: seq<byte>, at: nat, x: nat)
    requires at + 4 <= |s|
    ensures U32BE(Put32(s, at, x), at) == x % TWO_32
    ensures forall i :: 0 <= i < |s| && (i < at || at + 4 <= i) ==> Put32(s, at, x)[i] == s[i]
  {
    U32BEAt(s[..at], x % TWO_32, s[at + 4..]);
  }

  /**
    `Load` reads back what `SaveToFile` patched: the DOL offset at 0x420
    and the FST's offset and size at 0x424, and every other byte of
    boot.bin is kept.
  */
  lemma PatchBootReads(boot: seq<byte>, dolOffset: u32, fstOffset: u32, fstBytes: nat)
    requires FST_PTR + 12 <= |boot|
    ensures var r := PatchBoot(boot, dolOffset, fstOffset, fstBytes);
            && Word(r, DOL_PTR) == Some(dolOffset) && Word(r, FST_PTR) == Some(fstOffset)
            && Word(r, FST_PTR + 4) == Some(fstBytes % TWO_32)
            && forall i :: 0 <= i < |boot| && (i < DOL_PTR || FST_PTR + 12 <= i) ==> r[i] == boot[i]
  {
    var s1 := Put32(boot, FST_PTR, fstOffset);
    var s2 := Put32(s1, FST_PTR + 4, fstBytes);
    var s3 := Put32(s2, FST_PTR + 8, fstBytes);
    var r := Put32(s3, DOL_PTR, dolOffset);
    Put32Reads(boot, FST_PTR, fstOffset);
    Put32Reads(s1, FST_PTR + 4, fstBytes);
    Put32Reads(s2, FST_PTR + 8, fstBytes);
    Put32Reads(s3, DOL_PTR, dolOffset);
    SmallMod(dolOffset);
    SmallMod(fstOffset);
    assert r[FST_PTR..FST_PTR + 8] == s2[FST_PTR..FST_PTR + 8];
    assert s2[FST_PTR..FST_PTR + 4] == s1[FST_PTR..FST_PTR + 4];
    U32BEOfSlice(r, FST_PTR);
    U32BEOfSlice(s1, FST_PTR);
    U32BEOfSlice(s2, FST_PTR);
    U32BEOfSlice(r, FST_PTR + 4);
    U32BEOfSlice(s2, FST_PTR + 4);
  }
}
