/**
  The on-disk side of the RARC archive (src/Archive.cpp): the 16-bit name
  hash, the sizes `CalculateArchiveSizes` reserves for each section, and the
  deduplicated string table.

  `Save` and `CalculateArchiveSizes` walk the directory list of an archive
  and read, for each directory, its name, its parent and subfolders (as
  positions in that list) and its files.  That snapshot is a `DirView` per
  directory; the byte layout is written over it.  Names are the bytes of a
  `std::string`.
*/
module RarcFormat {
  import opened Util
  import opened Bytes

  const DOT: Name := [0x2E]
  const DOTDOT: Name := [0x2E, 0x2E]

  datatype FileView = FileView(name: Name, data: Data)

  /** A subfolder as `Save` sees it: its position in the directory list and its name. */
  datatype Link = Link(index: nat, name: Name)

  datatype DirView = DirView(name: Name, parent: Option<nat>, subdirs: seq<Link>, files: seq<FileView>)

  // ---------------------------------------------------------------------
  // Name hash
  // ---------------------------------------------------------------------

  /** `(uint16_t)c` for a plain `char`, which is signed: bytes from 0x80 are sign-extended. */
  function CharCode(b: byte): (r: nat)
    ensures r < 0x1_0000
    ensures Val(b) < 0x80 ==> r == Val(b)
    ensures Val(b) >= 0x80 ==> r == 0xFF00 + Val(b)
  {
    if Val(b) < 0x80 then Val(b) else Val(b) + 0xFF00
  }

  /** The hash as a fold over the name: times three plus the next character, in 16 bits. */
  function HashOf(s: Name): (h: nat)
    ensures h < 0x1_0000
    decreases |s|
  {
    if s == [] then 0 else (HashOf(s[..|s| - 1]) * 3 + CharCode(s[|s| - 1])) % 0x1_0000
  }

  /** The hash without truncation: the character codes read as a base-3 numeral. */
  function HashPoly(s: Name): nat
    decreases |s|
  {
    if s == [] then 0 else HashPoly(s[..|s| - 1]) * 3 + CharCode(s[|s| - 1])
  }

  /** Truncating to 16 bits after every step is truncating once at the end. */
  lemma {:induction false} HashIsPolyMod(s: Name)
    ensures HashOf(s) == HashPoly(s) % 0x1_0000
    decreases |s|
  {
    if s != [] {
      var p := s[..|s| - 1];
      HashIsPolyMod(p);
      ModMulAdd(HashPoly(p), 3, CharCode(s[|s| - 1]), 0x1_0000);
    }
  }

  /** Appending a character: `Hash(s + [c]) == (3 * Hash(s) + (uint16_t)c) mod 2^16`. */
  lemma HashSnoc(s: Name, c: byte)
    ensures HashOf(s + [c]) == (3 * HashOf(s) + CharCode(c)) % 0x1_0000
  {
    assert (s + [c])[..|s|] == s;
  }

  /** `Archive::Hash`: the loop of src/Archive.cpp:10-20. */
  method Hash(s: Name) returns (h: nat)
    ensures h == HashOf(s)
  {
    h := 0;
    var i := 0;
    while i < |s|
      invariant i <= |s|
      invariant h == HashOf(s[..i])
    {
      ghost var prev := h;
      h := (h * 3) % 0x1_0000;
      h := (h + CharCode(s[i])) % 0x1_0000;
      ModMulAdd(prev * 3, 1, CharCode(s[i]), 0x1_0000);
      assert s[..i + 1][..i] == s[..i];
      i := i + 1;
    }
    assert s[..|s|] == s;
  }

  // ---------------------------------------------------------------------
  // Integers in the archive's byte order
  // ---------------------------------------------------------------------

  function W16(order: ByteOrder, x: nat): (r: seq<byte>)
    requires x < 0x1_0000
    ensures |r| == 2
  {
    var b := Be16(x);
    if order == Big then b else [b[1], b[0]]
  }

  function W32(order: ByteOrder, x: u32): (r: seq<byte>)
    ensures |r| == 4
  {
    var b := Be32(x);
    if order == Big then b else [b[3], b[2], b[1], b[0]]
  }

  /** A 16-bit value written in either order is read back in the same order. */
  lemma Read16At(order: ByteOrder, a: seq<byte>, x: nat, b: seq<byte>)
    requires x < 0x1_0000
    ensures Read16(order, a + W16(order, x) + b, |a|) == x
  {
    var s := a + W16(order, x) + b;
    var w := Be16(x);
    assert s[|a|] == W16(order, x)[0] && s[|a| + 1] == W16(order, x)[1];
    U16BEOfBe16(x);
  }

  /** A 32-bit value written in either order is read back in the same order. */
  lemma Read32At(order: ByteOrder, a: seq<byte>, x: u32, b: seq<byte>)
    ensures Read32(order, a + W32(order, x) + b, |a|) == x
  {
    var s := a + W32(order, x) + b;
    var w := Be32(x);
    U32BEOfBe32(x);
    if order == Big {
      U32BEAt(a, x, b);
    } else {
      assert s[|a|] == w[3] && s[|a| + 1] == w[2] && s[|a| + 2] == w[1] && s[|a| + 3] == w[0];
      assert U32LE(s, |a|) == U32BE(w, 0);
    }
  }

  // ---------------------------------------------------------------------
  // Names in directory order
  // ---------------------------------------------------------------------

  function FileNames(fs: seq<FileView>): (ns: seq<Name>)
    ensures |ns| == |fs|
  {
    if fs == [] then [] else FileNames(fs[..|fs| - 1]) + [fs[|fs| - 1].name]
  }

  /** Every directory name followed by the names of its files: the order both passes visit names in. */
  function NameList(flat: seq<DirView>): seq<Name> {
    if flat == [] then [] else NameList(flat[..|flat| - 1]) + [flat[|flat| - 1].name] + FileNames(flat[|flat| - 1].files)
  }

  /** The names of `ns` as a set: the keys of the map the source keeps of names already seen. */
  function ElemsOf(ns: seq<Name>): set<Name> {
    if ns == [] then {} else ElemsOf(ns[..|ns| - 1]) + {ns[|ns| - 1]}
  }

  lemma {:induction false} ElemsOfMember(ns: seq<Name>, n: Name)
    ensures n in ElemsOf(ns) <==> n in ns
    decreases |ns|
  {
    if ns != [] {
      var init := ns[..|ns| - 1];
      ElemsOfMember(init, n);
      assert ns == init + [ns[|ns| - 1]];
    }
  }

  /**
    The bytes `name + NUL` of every name of `ns` the first time it occurs,
    leaving out names already in `seen`.
  */
  function NewBytes(ns: seq<Name>, seen: set<Name>): nat
    decreases |ns|
  {
    if ns == [] then 0
    else
      var init := ns[..|ns| - 1];
      var n := ns[|ns| - 1];
      NewBytes(init, seen) + (if n in seen || n in init then 0 else |n| + 1)
  }

  /** Seeding more names can only shrink what the remaining names add. */
  lemma {:induction false} NewBytesAntitone(ns: seq<Name>, s: set<Name>, t: set<Name>)
    requires s <= t
    ensures NewBytes(ns, t) <= NewBytes(ns, s)
    decreases |ns|
  {
    if ns != [] {
      NewBytesAntitone(ns[..|ns| - 1], s, t);
    }
  }

  lemma NewBytesSnoc(ns: seq<Name>, n: Name, seen: set<Name>)
    ensures NewBytes(ns + [n], seen) == NewBytes(ns, seen) + (if n in seen || n in ns then 0 else |n| + 1)
  {
    assert (ns + [n])[..|ns|] == ns;
  }

  lemma ElemsOfSnoc(ns: seq<Name>, n: Name)
    ensures ElemsOf(ns + [n]) == ElemsOf(ns) + {n}
  {
    assert (ns + [n])[..|ns|] == ns;
  }

  // ---------------------------------------------------------------------
  // Section sizes (`Rarc::CalculateArchiveSizes`)
  // ---------------------------------------------------------------------

  /** `.`, `..`, one per subfolder and one per file, summed over the directories. */
  function EntryCount(flat: seq<DirView>): nat {
    if flat == [] then 0
    else
      var d := flat[|flat| - 1];
      EntryCount(flat[..|flat| - 1]) + 2 + |d.subdirs| + |d.files|
  }

  function FilesDataSum(fs: seq<FileView>): nat {
    if fs == [] then 0 else FilesDataSum(fs[..|fs| - 1]) + PadTo32(|fs[|fs| - 1].data|)
  }

  /** Every file's size padded to 32 bytes, summed over the directories. */
  function DataSum(flat: seq<DirView>): nat {
    if flat == [] then 0 else DataSum(flat[..|flat| - 1]) + FilesDataSum(flat[|flat| - 1].files)
  }

  datatype Sizes = Sizes(total: u32, dirEntries: u32, fileEntries: u32, fileData: u32, strTable: u32)

  /**
    The sizes of src/Archive.cpp:128-166, each accumulated in a `uint32_t`:
    16 bytes per directory record, 20 per entry, the data padded per file,
    and 5 bytes for ".\0..\0" plus `name + NUL` for each name the first time
    it is seen (directories and files alike, "." and ".." included).
  */
  function SizesOf(flat: seq<DirView>): Sizes {
    SizesFrom((16 * |flat|) % TWO_32, (20 * EntryCount(flat)) % TWO_32, DataSum(flat) % TWO_32,
              (5 + NewBytes(NameList(flat), {})) % TWO_32)
  }

  /** The five sizes from the four `uint32_t` counters, `size` starting at the 0x40-byte header (src/Archive.cpp:129, 163-165). */
  function SizesFrom(dir: u32, fe: u32, fd: u32, st: u32): Sizes {
    var size := (0x40 + PadTo32(dir) + PadTo32(fe) + fd + PadTo32(st)) % TWO_32;
    Sizes(PadTo32(size), PadTo32(dir), PadTo32(fe), fd, PadTo32(st))
  }

  /** Adding to a `uint32_t` accumulator that tracks an unbounded sum. */
  lemma AddWrapped(acc: nat, sum: nat, c: nat)
    requires acc == sum % TWO_32
    ensures (acc + c) % TWO_32 == (sum + c) % TWO_32
  {
    ModMulAdd(sum, 1, c, TWO_32);
  }

  /** The local variables of `CalculateArchiveSizes`: the names seen so far and the four `uint32_t` sums. */
  datatype Counters = Counters(seen: set<Name>, dirEntry: u32, strTable: u32, fileEntry: u32, fileData: u32)

  /** The counters hold, wrapped to 32 bits, the sums over the names and entries visited so far. */
  ghost predicate Tracks(c: Counters, names: seq<Name>, dirSum: nat, entrySum: nat, dataSum: nat) {
    && c.seen == ElemsOf(names)
    && c.strTable == (5 + NewBytes(names, {})) % TWO_32
    && c.dirEntry == dirSum % TWO_32
    && c.fileEntry == entrySum % TWO_32
    && c.fileData == dataSum % TWO_32
  }

  /** One name through the string-table counter (src/Archive.cpp:141-144 and 153-156). */
  method CountName(c: Counters, ghost names: seq<Name>, n: Name, ghost dirSum: nat, ghost entrySum: nat, ghost dataSum: nat)
    returns (c': Counters)
    requires Tracks(c, names, dirSum, entrySum, dataSum)
    ensures Tracks(c', names + [n], dirSum, entrySum, dataSum)
  {
    NewBytesSnoc(names, n, {});
    ElemsOfSnoc(names, n);
    ElemsOfMember(names, n);
    c' := c;
    if n !in c.seen {
      AddWrapped(c.strTable, 5 + NewBytes(names, {}), |n| + 1);
      c' := c.(seen := c.seen + {n}, strTable := (c.strTable + |n| + 1) % TWO_32);
    }
  }

  /** Adding a constant to the entry counter. */
  function AddEntries(c: Counters, bytes: nat): Counters {
    c.(fileEntry := (c.fileEntry + bytes) % TWO_32)
  }

  lemma AddEntriesTracks(c: Counters, names: seq<Name>, dirSum: nat, entrySum: nat, dataSum: nat, bytes: nat)
    requires Tracks(c, names, dirSum, entrySum, dataSum)
    ensures Tracks(AddEntries(c, bytes), names, dirSum, entrySum + bytes, dataSum)
  {
    AddWrapped(c.fileEntry, entrySum, bytes);
  }

  /** One file: its name, its 20-byte entry and its padded data (src/Archive.cpp:152-160). */
  method CountFile(c: Counters, ghost names: seq<Name>, f: FileView, ghost dirSum: nat, ghost entrySum: nat, ghost dataSum: nat)
    returns (c': Counters)
    requires Tracks(c, names, dirSum, entrySum, dataSum)
    ensures Tracks(c', names + [f.name], dirSum, entrySum + 0x14, dataSum + PadTo32(|f.data|))
  {
    c' := CountName(c, names, f.name, dirSum, entrySum, dataSum);
    AddEntriesTracks(c', names + [f.name], dirSum, entrySum, dataSum, 0x14);
    c' := AddEntries(c', 0x14);
    AddWrapped(c'.fileData, dataSum, PadTo32(|f.data|));
    c' := c'.(fileData := (c'.fileData + PadTo32(|f.data|)) % TWO_32);
  }

  lemma FilesPrefixStep(names: seq<Name>, fs: seq<FileView>, k: nat)
    requires k < |fs|
    ensures names + FileNames(fs[..k + 1]) == (names + FileNames(fs[..k])) + [fs[k].name]
    ensures FilesDataSum(fs[..k + 1]) == FilesDataSum(fs[..k]) + PadTo32(|fs[k].data|)
  {
    assert fs[..k + 1][..k] == fs[..k];
  }

  /** The files of one directory, in order. */
  method CountFiles(c: Counters, ghost names: seq<Name>, fs: seq<FileView>, ghost dirSum: nat, ghost entrySum: nat, ghost dataSum: nat)
    returns (c': Counters)
    requires Tracks(c, names, dirSum, entrySum, dataSum)
    ensures Tracks(c', names + FileNames(fs), dirSum, entrySum + 20 * |fs|, dataSum + FilesDataSum(fs))
  {
    c' := c;
    var k := 0;
    ghost var ns, es, ds := names, entrySum, dataSum;
    assert fs[..0] == [] && names + [] == names;
    while k < |fs|
      invariant k <= |fs|
      invariant ns == names + FileNames(fs[..k]) && es == entrySum + 20 * k && ds == dataSum + FilesDataSum(fs[..k])
      invariant Tracks(c', ns, dirSum, es, ds)
    {
      FilesPrefixStep(names, fs, k);
      c' := CountFile(c', ns, fs[k], dirSum, es, ds);
      ns, es, ds := ns + [fs[k].name], es + 0x14, ds + PadTo32(|fs[k].data|);
      k := k + 1;
    }
    assert fs[..k] == fs;
  }

  lemma FlatPrefixStep(flat: seq<DirView>, i: nat)
    requires i < |flat|
    ensures NameList(flat[..i + 1]) == NameList(flat[..i]) + [flat[i].name] + FileNames(flat[i].files)
    ensures EntryCount(flat[..i + 1]) == EntryCount(flat[..i]) + 2 + |flat[i].subdirs| + |flat[i].files|
    ensures DataSum(flat[..i + 1]) == DataSum(flat[..i]) + FilesDataSum(flat[i].files)
  {
    assert flat[..i + 1][..i] == flat[..i];
  }

  /** One 20-byte entry per subfolder (src/Archive.cpp:148-150). */
  method CountSubdirs(c: Counters, ghost names: seq<Name>, subdirs: seq<Link>, ghost dirSum: nat, ghost entrySum: nat, ghost dataSum: nat)
    returns (c': Counters)
    requires Tracks(c, names, dirSum, entrySum, dataSum)
    ensures Tracks(c', names, dirSum, entrySum + 20 * |subdirs|, dataSum)
  {
    c' := c;
    var k := 0;
    while k < |subdirs|
      invariant k <= |subdirs|
      invariant Tracks(c', names, dirSum, entrySum + 20 * k, dataSum)
    {
      AddEntriesTracks(c', names, dirSum, entrySum + 20 * k, dataSum, 0x14);
      c' := AddEntries(c', 0x14);
      k := k + 1;
    }
  }

  /** One directory: its record, its name, its `.`/`..` and subfolder entries, then its files (src/Archive.cpp:139-160). */
  method CountDirectory(c: Counters, flat: seq<DirView>, i: nat) returns (c': Counters)
    requires i < |flat|
    requires Tracks(c, NameList(flat[..i]), 16 * i, 20 * EntryCount(flat[..i]), DataSum(flat[..i]))
    ensures Tracks(c', NameList(flat[..i + 1]), 16 * (i + 1), 20 * EntryCount(flat[..i + 1]), DataSum(flat[..i + 1]))
  {
    var d := flat[i];
    ghost var names := NameList(flat[..i]);
    ghost var entries := 20 * EntryCount(flat[..i]);
    ghost var data := DataSum(flat[..i]);
    FlatPrefixStep(flat, i);
    AddWrapped(c.dirEntry, 16 * i, 0x10);
    c' := c.(dirEntry := (c.dirEntry + 0x10) % TWO_32);
    c' := CountName(c', names, d.name, 16 * (i + 1), entries, data);
    AddEntriesTracks(c', names + [d.name], 16 * (i + 1), entries, data, 0x28);
    c' := AddEntries(c', 0x28);
    c' := CountSubdirs(c', names + [d.name], d.subdirs, 16 * (i + 1), entries + 0x28, data);
    c' := CountFiles(c', names + [d.name], d.files, 16 * (i + 1), entries + 0x28 + 20 * |d.subdirs|, data);
    assert entries + 0x28 + 20 * |d.subdirs| + 20 * |d.files| == 20 * EntryCount(flat[..i + 1]);
  }

  /** The loop of `Rarc::CalculateArchiveSizes` over every directory (src/Archive.cpp:138-161). */
  method CountDirectories(flat: seq<DirView>) returns (c: Counters)
    ensures Tracks(c, NameList(flat), 16 * |flat|, 20 * EntryCount(flat), DataSum(flat))
  {
    c := Counters({}, 0, 5, 0, 0);
    var i := 0;
    while i < |flat|
      invariant i <= |flat|
      invariant Tracks(c, NameList(flat[..i]), 16 * i, 20 * EntryCount(flat[..i]), DataSum(flat[..i]))
    {
      c := CountDirectory(c, flat, i);
      i := i + 1;
    }
    assert flat[..i] == flat;
  }

  /** `Rarc::CalculateArchiveSizes` (src/Archive.cpp:128-166) over the directory list. */
  method CalculateArchiveSizes(flat: seq<DirView>) returns (s: Sizes)
    ensures s == SizesOf(flat)
  {
    var c := CountDirectories(flat);
    s := SizesFrom(c.dirEntry, c.fileEntry, c.fileData, c.strTable);
  }

  // ---------------------------------------------------------------------
  // The string table of `Rarc::Save`
  // ---------------------------------------------------------------------

  /** The bytes written to the string table so far and the offset recorded for each name. */
  datatype StrTable = StrTable(bytes: seq<byte>, offsets: map<Name, nat>)

  /** ".\0..\0", with "." at offset 0 and ".." at offset 2 (src/Archive.cpp:396-401). */
  const SEED_TABLE: StrTable := StrTable([0x2E, 0x00, 0x2E, 0x2E, 0x00], map[DOT := 0, DOTDOT := 2])

  /** A name not seen before is written with its NUL at the current end of the table. */
  function AddName(t: StrTable, n: Name): StrTable {
    if n in t.offsets then t else StrTable(t.bytes + n + [0], t.offsets[n := |t.bytes|])
  }

  function AddNames(t: StrTable, ns: seq<Name>): StrTable
    decreases |ns|
  {
    if ns == [] then t else AddName(AddNames(t, ns[..|ns| - 1]), ns[|ns| - 1])
  }

  /** The table `Save` builds: every directory name, then its files' names. */
  function TableOf(flat: seq<DirView>): StrTable {
    AddNames(SEED_TABLE, NameList(flat))
  }

  /** `stringTable[name]`: a name missing from the map reads as 0. */
  function Offset(t: StrTable, n: Name): nat {
    if n in t.offsets then t.offsets[n] else 0
  }

  /** The table holds `n` followed by NUL at the offset recorded for it. */
  ghost predicate Holds(t: StrTable, n: Name) {
    n in t.offsets && t.offsets[n] + |n| < |t.bytes| &&
    t.bytes[t.offsets[n]..t.offsets[n] + |n|] == n && t.bytes[t.offsets[n] + |n|] == 0
  }

  ghost predicate AllHold(t: StrTable) {
    forall n :: n in t.offsets ==> Holds(t, n)
  }

  lemma SeedHolds()
    ensures AllHold(SEED_TABLE)
    ensures SEED_TABLE.offsets.Keys == {DOT, DOTDOT} && |SEED_TABLE.bytes| == 5
  {
    var t := SEED_TABLE;
    assert t.bytes[0..1] == DOT;
    assert t.bytes[2..4] == DOTDOT;
  }

  /** Appending a name keeps every earlier name readable and makes the new one readable. */
  lemma AddNameHolds(t: StrTable, n: Name)
    requires AllHold(t)
    ensures AllHold(AddName(t, n))
  {
    if n !in t.offsets {
      var u := AddName(t, n);
      forall m | m in u.offsets
        ensures Holds(u, m)
      {
        if m != n {
          HoldsKept(t, n + [0], m);
        } else {
          assert u.bytes[|t.bytes|..|t.bytes| + |n|] == n;
        }
      }
    }
  }

  /** A name readable in `t` stays readable once more bytes follow the table. */
  lemma HoldsKept(t: StrTable, tail: seq<byte>, m: Name)
    requires Holds(t, m)
    ensures Holds(StrTable(t.bytes + tail, t.offsets), m)
  {
    var o := t.offsets[m];
    var b := t.bytes + tail;
    assert b[o..o + |m|] == t.bytes[o..o + |m|];
  }

  /** The names an append adds, and the bytes it costs. */
  lemma AddNameSize(t: StrTable, n: Name)
    ensures AddName(t, n).offsets.Keys == t.offsets.Keys + {n}
    ensures |AddName(t, n).bytes| == |t.bytes| + (if n in t.offsets then 0 else |n| + 1)
  {
  }

  lemma {:induction false} AddNamesSize(t: StrTable, ns: seq<Name>)
    ensures AddNames(t, ns).offsets.Keys == t.offsets.Keys + ElemsOf(ns)
    ensures |AddNames(t, ns).bytes| == |t.bytes| + NewBytes(ns, t.offsets.Keys)
    decreases |ns|
  {
    if ns != [] {
      var init := ns[..|ns| - 1];
      var n := ns[|ns| - 1];
      var u := AddNames(t, init);
      AddNamesSize(t, init);
      AddNameSize(u, n);
      ElemsOfMember(init, n);
      assert AddNames(t, ns) == AddName(u, n);
      assert t.offsets.Keys + ElemsOf(init) + {n} == t.offsets.Keys + ElemsOf(ns);
      assert (n in u.offsets) == (n in t.offsets.Keys || n in init);
    }
  }

  lemma {:induction false} AddNamesHolds(t: StrTable, ns: seq<Name>)
    requires AllHold(t)
    ensures AllHold(AddNames(t, ns))
    decreases |ns|
  {
    if ns != [] {
      AddNamesHolds(t, ns[..|ns| - 1]);
      AddNameHolds(AddNames(t, ns[..|ns| - 1]), ns[|ns| - 1]);
    }
  }

  /**
    The table `Save` writes: "." at 0 and ".." at 2, every name of every
    directory and file readable NUL-terminated at its recorded offset, and no
    longer than the size `CalculateArchiveSizes` reserved before padding.
  */
  lemma TableOfHolds(flat: seq<DirView>)
    ensures AllHold(TableOf(flat))
    ensures TableOf(flat).offsets.Keys == {DOT, DOTDOT} + ElemsOf(NameList(flat))
    ensures TableOf(flat).offsets[DOT] == 0 && TableOf(flat).offsets[DOTDOT] == 2
    ensures |TableOf(flat).bytes| <= 5 + NewBytes(NameList(flat), {})
  {
    var ns := NameList(flat);
    SeedHolds();
    AddNamesHolds(SEED_TABLE, ns);
    AddNamesSize(SEED_TABLE, ns);
    NewBytesAntitone(ns, {}, SEED_TABLE.offsets.Keys);
    AddNamesKeepsOffsets(SEED_TABLE, ns, DOT);
    AddNamesKeepsOffsets(SEED_TABLE, ns, DOTDOT);
  }

  /** A name already in the table keeps its offset. */
  lemma {:induction false} AddNamesKeepsOffsets(t: StrTable, ns: seq<Name>, n: Name)
    requires n in t.offsets
    ensures n in AddNames(t, ns).offsets && AddNames(t, ns).offsets[n] == t.offsets[n]
    decreases |ns|
  {
    if ns != [] {
      AddNamesKeepsOffsets(t, ns[..|ns| - 1], n);
    }
  }

  /** The string-table pass of `Save` (src/Archive.cpp:394-416). */
  method BuildStringTable(flat: seq<DirView>) returns (t: StrTable)
    ensures t == TableOf(flat)
  {
    t := SEED_TABLE;
    var i := 0;
    while i < |flat|
      invariant i <= |flat|
      invariant t == AddNames(SEED_TABLE, NameList(flat[..i]))
    {
      var d := flat[i];
      FlatPrefixStep(flat, i);
      ghost var names := NameList(flat[..i]);
      if d.name !in t.offsets {
        t := StrTable(t.bytes + d.name + [0], t.offsets[d.name := |t.bytes|]);
      }
      AddNamesSnoc(SEED_TABLE, names, d.name);
      t := InternFiles(t, names + [d.name], d.files);
      i := i + 1;
    }
    assert flat[..i] == flat;
  }

  /** The inner loop over one directory's files (src/Archive.cpp:409-415). */
  method InternFiles(t0: StrTable, ghost names: seq<Name>, fs: seq<FileView>) returns (t: StrTable)
    requires t0 == AddNames(SEED_TABLE, names)
    ensures t == AddNames(SEED_TABLE, names + FileNames(fs))
  {
    t := t0;
    var k := 0;
    assert fs[..0] == [] && names + [] == names;
    while k < |fs|
      invariant k <= |fs|
      invariant t == AddNames(SEED_TABLE, names + FileNames(fs[..k]))
    {
      var n := fs[k].name;
      FilesPrefixStep(names, fs, k);
      if n !in t.offsets {
        t := StrTable(t.bytes + n + [0], t.offsets[n := |t.bytes|]);
      }
      AddNamesSnoc(SEED_TABLE, names + FileNames(fs[..k]), n);
      k := k + 1;
    }
    assert fs[..k] == fs;
  }

  lemma AddNamesSnoc(t: StrTable, ns: seq<Name>, n: Name)
    ensures AddNames(t, ns + [n]) == AddName(AddNames(t, ns), n)
  {
    assert (ns + [n])[..|ns|] == ns;
  }
}
