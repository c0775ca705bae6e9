/**
  `Rarc::Load` inverts `Rarc::Save` for big-endian, uncompressed archives
  (src/Archive.cpp:421-543 written, 617-713 read back).

  Loading the image `Save` writes for a directory list gives back, for every
  directory in the same order, its name, the indices of its subfolders in
  entry order and its files with their names and bytes, provided the names
  hold no NUL byte, every subfolder entry names the folder it points at (and
  is neither "." nor ".."), the string table and the entry counts fit their
  16-bit fields, and the image fits 32 bits.  A little-endian image does not
  round-trip: the attribute byte and the 16-bit name offset of an entry are
  written as two bytes and a half-word (src/Archive.cpp:457-461) but read
  back as one 32-bit word (src/Archive.cpp:670-672).
*/
module RarcInverse {
  import opened Util
  import opened Bytes
  import opened RarcFormat
  import opened RarcLayout
  import opened RarcLoad
  import opened RarcRoundTrip
  import opened RarcSave

  // ---------------------------------------------------------------------
  // What a directory list must satisfy, and what `Load` gives back
  // ---------------------------------------------------------------------

  /** A name the NUL-terminated name loop reads back whole. */
  predicate NoNul(n: Name) {
    forall k :: 0 <= k < |n| ==> n[k] != 0
  }

  /** A subfolder entry that names the folder it points at, and is not "." or "..". */
  predicate LinkLoadable(flat: seq<DirView>, l: Link) {
    l.index < |flat| && l.name == flat[l.index].name && l.name != DOT && l.name != DOTDOT
  }

  predicate DirLoadable(flat: seq<DirView>, d: DirView) {
    && NoNul(d.name)
    && |d.files| + |d.subdirs| + 2 < 0x1_0000
    && (forall k :: 0 <= k < |d.files| ==> NoNul(d.files[k].name))
    && (forall k :: 0 <= k < |d.subdirs| ==> LinkLoadable(flat, d.subdirs[k]))
  }

  /**
    The image fits 32 bits, the string table fits the 16-bit name offsets of
    the entries, and every directory is loadable.
  */
  ghost predicate Loadable(flat: seq<DirView>) {
    && Fits(flat)
    && 5 + NewBytes(NameList(flat), {}) <= 0x1_0000
    && forall i :: 0 <= i < |flat| ==> DirLoadable(flat, flat[i])
  }

  /** The subfolder indices of a directory's links, in order. */
  function Indices(ls: seq<Link>): (r: seq<nat>)
    ensures |r| == |ls| && forall k :: 0 <= k < |ls| ==> r[k] == ls[k].index
  {
    seq(|ls|, k requires 0 <= k < |ls| => ls[k].index)
  }

  /** A directory as `Load` should fill it from the image of `d`. */
  function Expected(d: DirView): LoadedDir {
    LoadedDir(d.name, Indices(d.subdirs), d.files)
  }

  /** The first `n` directories as `Load` should fill them. */
  function ExpectedDirs(flat: seq<DirView>, n: nat): (r: seq<LoadedDir>)
    requires n <= |flat|
    ensures |r| == n
  {
    if n == 0 then [] else ExpectedDirs(flat, n - 1) + [Expected(flat[n - 1])]
  }

  lemma {:induction false} ExpectedDirsAt(flat: seq<DirView>, n: nat, i: nat)
    requires i < n <= |flat|
    ensures ExpectedDirs(flat, n)[i] == Expected(flat[i])
    decreases n
  {
    if i < n - 1 {
      ExpectedDirsAt(flat, n - 1, i);
    }
  }

  // ---------------------------------------------------------------------
  // Names
  // ---------------------------------------------------------------------

  /** From position `q + j` on, with `n[..j]` read so far, the name loop reads the rest of `n` and stops at its NUL. */
  lemma {:induction false} CStrReads(s: seq<byte>, q: nat, n: Name, bound: nat, j: nat)
    requires q + |n| < |s| && s[q..q + |n|] == n && s[q + |n|] == 0
    requires NoNul(n) && q + |n| < bound && j <= |n|
    ensures CStr(s, q + j, bound, n[..j]) == Some(n)
    decreases |n| - j
  {
    if j == |n| {
      assert n[..j] == n;
    } else {
      assert s[q..q + |n|][j] == s[q + j];
      assert n[..j] + [n[j]] == n[..j + 1];
      CStrReads(s, q, n, bound, j + 1);
    }
  }

  /** A name the table holds is read back from its offset when the table lies at `p`. */
  lemma TableName(s: seq<byte>, p: nat, t: StrTable, n: Name, q: nat, bound: nat)
    requires At(s, p, t.bytes) && Holds(t, n) && NoNul(n)
    requires q == p + t.offsets[n] && p + |t.bytes| <= bound
    ensures CStr(s, q, bound, []) == Some(n)
  {
    var o := t.offsets[n];
    assert At(t.bytes, o, n);
    AtCompose(s, p, t.bytes, o, n);
    assert s[p..p + |t.bytes|][o + |n|] == s[q + |n|];
    CStrReads(s, q, n, bound, 0);
    assert n[..0] == [];
  }

  lemma {:induction false} FileNamesAt(fs: seq<FileView>, k: nat)
    requires k < |fs|
    ensures FileNames(fs)[k] == fs[k].name
    decreases |fs|
  {
    if k < |fs| - 1 {
      FileNamesAt(fs[..|fs| - 1], k);
    }
  }

  /** Every directory name and every file name of the list is in the name list. */
  lemma {:induction false} NamesListed(flat: seq<DirView>, i: nat)
    requires i < |flat|
    ensures flat[i].name in NameList(flat)
    ensures forall k :: 0 <= k < |flat[i].files| ==> flat[i].files[k].name in NameList(flat)
    decreases |flat|
  {
    var init := flat[..|flat| - 1];
    var last := flat[|flat| - 1];
    assert NameList(flat) == NameList(init) + [last.name] + FileNames(last.files);
    if i == |flat| - 1 {
      assert NameList(flat)[|NameList(init)|] == last.name;
      forall k | 0 <= k < |last.files|
        ensures last.files[k].name in NameList(flat)
      {
        FileNamesAt(last.files, k);
        assert NameList(flat)[|NameList(init)| + 1 + k] == last.files[k].name;
      }
    } else {
      NamesListed(init, i);
      assert init[i] == flat[i];
    }
  }

  /** A listed name is held by the table, at an offset that fits 16 bits. */
  lemma TableHolds(flat: seq<DirView>, n: Name)
    requires Loadable(flat) && n in NameList(flat)
    ensures Holds(TableOf(flat), n) && TableOf(flat).offsets[n] < 0x1_0000
  {
    ElemsOfMember(NameList(flat), n);
    TableOfHolds(flat);
  }

  /** "." and ".." are held by the table at 0 and 2. */
  lemma TableDots(flat: seq<DirView>)
    ensures Holds(TableOf(flat), DOT) && TableOf(flat).offsets[DOT] == 0
    ensures Holds(TableOf(flat), DOTDOT) && TableOf(flat).offsets[DOTDOT] == 2
  {
    TableOfHolds(flat);
  }

  // ---------------------------------------------------------------------
  // Reading one entry
  // ---------------------------------------------------------------------

  /** The attribute word of an entry: the attribute byte on top of a 16-bit name offset. */
  lemma AttrWord(e: seq<byte>, a: byte, o: nat)
    requires 8 <= |e| && o < 0x1_0000 && e[4] == a && e[5] == 0 && e[6..8] == Be16(o)
    ensures Read32(Big, e, 4) / 0x100_0000 == Val(a) && Read32(Big, e, 4) % 0x100_0000 == o
  {
    U16BEOfBe16(o);
    assert e[6..8][0] == e[6] && e[6..8][1] == e[7];
    var w := Read32(Big, e, 4);
    assert w == Val(a) * 0x100_0000 + o;
    DivModUnique(w, 0x100_0000, Val(a), o);
  }

  /** A big-endian word found in an entry. */
  lemma WordIn(e: seq<byte>, i: nat, x: u32)
    requires i + 4 <= |e| && e[i..i + 4] == Be32(x)
    ensures Read32(Big, e, i) == x
  {
    assert e[i..i + 4][0] == e[i] && e[i..i + 4][1] == e[i + 1] && e[i..i + 4][2] == e[i + 2] && e[i..i + 4][3] == e[i + 3];
    U32BEOfBe32(x);
  }

  /** The fields of an entry: `a` and `o` in the attribute word, `x` at 8, `y` at 12. */
  lemma EntryFields(head: seq<byte>, a: byte, o: nat, x: u32, y: u32, e: seq<byte>)
    requires |head| == 4 && o < 0x1_0000
    requires e == head + [a, 0x00] + Be16(o) + Be32(x) + Be32(y) + Be32(0)
    ensures |e| == 20
    ensures Read32(Big, e, 4) / 0x100_0000 == Val(a) && Read32(Big, e, 4) % 0x100_0000 == o
    ensures Read32(Big, e, 8) == x && Read32(Big, e, 12) == y
  {
    assert e[6..8] == Be16(o);
    assert e[8..12] == Be32(x);
    assert e[12..16] == Be32(y);
    AttrWord(e, a, o);
    WordIn(e, 8, x);
    WordIn(e, 12, y);
  }

  /** The image facts an entry read needs: the table at `T` below the name bound, the data after `D`. */
  ghost predicate NamesAt(s: seq<byte>, h: Hdr, t: StrTable, T: nat) {
    && At(s, T, t.bytes)
    && h.strOffset + h.fsOffset == T
    && |t.bytes| <= h.strSize
    && T + h.strSize < TWO_32
  }

  /** A name held at offset `o` of the table is read back from the name offset `o`. */
  lemma NameAtOffset(s: seq<byte>, h: Hdr, t: StrTable, T: nat, n: Name, o: nat)
    requires NamesAt(s, h, t, T) && Holds(t, n) && NoNul(n) && o == t.offsets[n]
    ensures CStr(s, NameStart(h, o), NameBound(h), []) == Some(n)
  {
    SmallMod(T + o);
    SmallMod(T + h.strSize);
    TableName(s, T, t, n, T + o, T + h.strSize);
  }

  /** The words of a file entry at `p`: attribute 0x11, its name offset, data offset and size. */
  lemma FileEntryWords(s: seq<byte>, p: nat, idx: nat, f: FileView, t: StrTable, off: nat, o: nat)
    requires At(s, p, FileEntry(Big, idx, f, t, off)) && o == Offset(t, f.name) && o < 0x1_0000
    requires off < TWO_32 && |f.data| < TWO_32
    ensures Read32(Big, s, p + 4) / 0x100_0000 == 0x11 && Read32(Big, s, p + 4) % 0x100_0000 == o
    ensures Read32(Big, s, p + 8) == off && Read32(Big, s, p + 12) == |f.data|
  {
    var e := FileEntry(Big, idx, f, t, off);
    SmallMod(off);
    SmallMod(o);
    EntryFields(Be16(idx % 0x1_0000) + Be16(HashOf(f.name)), 0x11, o, off, |f.data|, e);
    Read32In(Big, s, p, e, 4, p + 4);
    Read32In(Big, s, p, e, 8, p + 8);
    Read32In(Big, s, p, e, 12, p + 12);
  }

  /** An entry whose words say "file, name at `o`, data at `off`, `|f.data|` bytes" is read as `f`. */
  lemma FileItemRead(s: seq<byte>, h: Hdr, p: nat, f: FileView, o: nat, off: nat)
    requires p + 16 <= |s|
    requires Read32(Big, s, p + 4) / 0x100_0000 == 0x11 && Read32(Big, s, p + 4) % 0x100_0000 == o
    requires Read32(Big, s, p + 8) == off && Read32(Big, s, p + 12) == |f.data|
    requires CStr(s, NameStart(h, o), NameBound(h), []) == Some(f.name)
    requires h.fsOffset + h.fsSize + off < TWO_32 && At(s, h.fsOffset + h.fsSize + off, f.data)
    ensures ReadEntry(Big, s, h, p) == Some(FileItem(f))
  {
    SmallMod(h.fsOffset + h.fsSize + off);
  }

  /** A file entry is read back as the file, its bytes taken from the data section. */
  lemma FileEntryRead(s: seq<byte>, h: Hdr, t: StrTable, T: nat, D: nat, p: nat, idx: nat, f: FileView, off: nat)
    requires NamesAt(s, h, t, T) && h.fsOffset + h.fsSize == D
    requires At(s, p, FileEntry(Big, idx, f, t, off))
    requires Holds(t, f.name) && NoNul(f.name) && t.offsets[f.name] < 0x1_0000
    requires D + off < TWO_32 && At(s, D + off, f.data)
    ensures ReadEntry(Big, s, h, p) == Some(FileItem(f))
  {
    var o := Offset(t, f.name);
    FileEntryWords(s, p, idx, f, t, off, o);
    NameAtOffset(s, h, t, T, f.name, o);
    FileItemRead(s, h, p, f, o, off);
  }

  /** The words of a subfolder entry at `p`: attribute 0x02, its name offset and the folder's index. */
  lemma LinkEntryWords(s: seq<byte>, p: nat, l: Link, t: StrTable, o: nat)
    requires At(s, p, LinkEntry(Big, l, t)) && o == Offset(t, l.name) && o < 0x1_0000 && l.index < TWO_32
    ensures Read32(Big, s, p + 4) / 0x100_0000 == 0x02 && Read32(Big, s, p + 4) % 0x100_0000 == o
    ensures Read32(Big, s, p + 8) == l.index
  {
    var e := LinkEntry(Big, l, t);
    SmallMod(l.index);
    SmallMod(o);
    EntryFields(Be16(0xFFFF) + Be16(HashOf(l.name)), 0x02, o, l.index, 0x10, e);
    Read32In(Big, s, p, e, 4, p + 4);
    Read32In(Big, s, p, e, 8, p + 8);
  }

  /** An entry whose words say "subfolder `n` at index `i`" is read as a link to `i`. */
  lemma LinkItemRead(s: seq<byte>, h: Hdr, p: nat, n: Name, o: nat, i: nat)
    requires p + 16 <= |s|
    requires Read32(Big, s, p + 4) / 0x100_0000 == 0x02 && Read32(Big, s, p + 4) % 0x100_0000 == o
    requires Read32(Big, s, p + 8) == i && i < h.dirCount && i != NO_INDEX
    requires CStr(s, NameStart(h, o), NameBound(h), []) == Some(n) && n != DOT && n != DOTDOT
    ensures ReadEntry(Big, s, h, p) == Some(LinkItem(i))
  {
  }

  /** A subfolder entry is read back as the index of the folder it names. */
  lemma LinkEntryRead(s: seq<byte>, h: Hdr, t: StrTable, T: nat, p: nat, l: Link)
    requires NamesAt(s, h, t, T) && At(s, p, LinkEntry(Big, l, t))
    requires Holds(t, l.name) && NoNul(l.name) && t.offsets[l.name] < 0x1_0000
    requires l.name != DOT && l.name != DOTDOT && l.index < h.dirCount
    ensures ReadEntry(Big, s, h, p) == Some(LinkItem(l.index))
  {
    var o := Offset(t, l.name);
    LinkEntryWords(s, p, l, t, o);
    NameAtOffset(s, h, t, T, l.name, o);
    LinkItemRead(s, h, p, l.name, o, l.index);
  }

  /** The "." entry adds nothing. */
  lemma DotEntryRead(s: seq<byte>, h: Hdr, t: StrTable, T: nat, p: nat, i: nat)
    requires NamesAt(s, h, t, T) && At(s, p, DotEntry(Big, i))
    requires Holds(t, DOT) && t.offsets[DOT] == 0
    ensures ReadEntry(Big, s, h, p) == Some(NoItem)
  {
    var e := DotEntry(Big, i);
    EntryFields(Be16(0xFFFF) + Be16(HashOf(DOT)), 0x02, 0, i % TWO_32, 0x10, e);
    Read32In(Big, s, p, e, 4, p + 4);
    NameAtOffset(s, h, t, T, DOT, 0);
  }

  /** The ".." entry adds nothing. */
  lemma DotDotEntryRead(s: seq<byte>, h: Hdr, t: StrTable, T: nat, p: nat, parent: Option<nat>)
    requires NamesAt(s, h, t, T) && At(s, p, DotDotEntry(Big, parent))
    requires Holds(t, DOTDOT) && t.offsets[DOTDOT] == 2
    ensures ReadEntry(Big, s, h, p) == Some(NoItem)
  {
    var e := DotDotEntry(Big, parent);
    EntryFields(Be16(0xFFFF) + Be16(HashOf(DOTDOT)), 0x02, 2, ParentWord(parent), 0x10, e);
    Read32In(Big, s, p, e, 4, p + 4);
    NameAtOffset(s, h, t, T, DOTDOT, 2);
  }

  // ---------------------------------------------------------------------
  // Where each record, entry and block lies in its section
  // ---------------------------------------------------------------------

  lemma AtSelf(x: seq<byte>)
    ensures At(x, 0, x)
  {
    assert x[0..|x|] == x;
  }

  lemma {:induction false} DirSectionPrefix(flat: seq<DirView>, t: StrTable, j: nat)
    requires j <= |flat|
    ensures At(DirSection(Big, flat, t), 0, DirSection(Big, flat[..j], t))
    decreases |flat| - j
  {
    if j == |flat| {
      assert flat[..j] == flat;
      AtSelf(DirSection(Big, flat, t));
    } else {
      DirSectionPrefix(flat, t, j + 1);
      SectionStep(Big, flat, t, j);
      AtLeft(DirSection(Big, flat[..j], t), DirRecord(Big, j, flat[j], t, EntryCount(flat[..j])));
      AtCompose(DirSection(Big, flat, t), 0, DirSection(Big, flat[..j + 1], t), 0, DirSection(Big, flat[..j], t));
    }
  }

  /** Record `i` is the `i`-th 16 bytes of the directory section. */
  lemma DirRecordIn(flat: seq<DirView>, t: StrTable, i: nat)
    requires i < |flat|
    ensures At(DirSection(Big, flat, t), 16 * i, DirRecord(Big, i, flat[i], t, EntryCount(flat[..i])))
  {
    DirSectionPrefix(flat, t, i + 1);
    SectionStep(Big, flat, t, i);
    AtRight(DirSection(Big, flat[..i], t), DirRecord(Big, i, flat[i], t, EntryCount(flat[..i])));
    AtCompose(DirSection(Big, flat, t), 0, DirSection(Big, flat[..i + 1], t), 16 * i,
              DirRecord(Big, i, flat[i], t, EntryCount(flat[..i])));
  }

  lemma {:induction false} EntrySectionPrefix(flat: seq<DirView>, t: StrTable, j: nat)
    requires j <= |flat|
    ensures At(EntrySection(Big, flat, t), 0, EntrySection(Big, flat[..j], t))
    decreases |flat| - j
  {
    if j == |flat| {
      assert flat[..j] == flat;
      AtSelf(EntrySection(Big, flat, t));
    } else {
      EntrySectionPrefix(flat, t, j + 1);
      SectionStep(Big, flat, t, j);
      AtLeft(EntrySection(Big, flat[..j], t), DirEntries(Big, j, flat[j], t, EntryCount(flat[..j]), DataSection(flat[..j])));
      AtCompose(EntrySection(Big, flat, t), 0, EntrySection(Big, flat[..j + 1], t), 0, EntrySection(Big, flat[..j], t));
    }
  }

  /** The last part of a window at 0 lies right after the parts before it. */
  lemma AtLast(whole: seq<byte>, pre: seq<byte>, x: seq<byte>, p: nat)
    requires At(whole, 0, pre + x) && p == |pre|
    ensures At(whole, p, x)
  {
    AtRight(pre, x);
    AtCompose(whole, 0, pre + x, p, x);
  }

  /** Directory `i`'s entries start at entry number `first`, the count of the entries before it. */
  lemma DirEntriesIn(flat: seq<DirView>, t: StrTable, i: nat, first: nat, before: seq<byte>, x: seq<byte>)
    requires i < |flat| && first == EntryCount(flat[..i]) && before == DataSection(flat[..i])
    requires x == DirEntries(Big, i, flat[i], t, first, before)
    ensures At(EntrySection(Big, flat, t), 20 * first, x)
  {
    EntrySectionPrefix(flat, t, i + 1);
    SectionStep(Big, flat, t, i);
    AtLast(EntrySection(Big, flat, t), EntrySection(Big, flat[..i], t), x, 20 * first);
  }

  lemma {:induction false} DataSectionPrefix(flat: seq<DirView>, j: nat)
    requires j <= |flat|
    ensures At(DataSection(flat), 0, DataSection(flat[..j]))
    decreases |flat| - j
  {
    if j == |flat| {
      assert flat[..j] == flat;
      AtSelf(DataSection(flat));
    } else {
      DataSectionPrefix(flat, j + 1);
      DataSectionStep(flat, j);
      AtLeft(DataSection(flat[..j]), Blocks(flat[j].files));
      AtCompose(DataSection(flat), 0, DataSection(flat[..j + 1]), 0, DataSection(flat[..j]));
    }
  }

  lemma DataSectionStep(flat: seq<DirView>, i: nat)
    requires i < |flat|
    ensures DataSection(flat[..i + 1]) == DataSection(flat[..i]) + Blocks(flat[i].files)
  {
    assert flat[..i + 1][..i] == flat[..i];
  }

  /** Directory `i`'s file blocks follow those of the directories before it. */
  lemma BlocksIn(flat: seq<DirView>, i: nat)
    requires i < |flat|
    ensures At(DataSection(flat), |DataSection(flat[..i])|, Blocks(flat[i].files))
  {
    DataSectionPrefix(flat, i + 1);
    DataSectionStep(flat, i);
    AtLast(DataSection(flat), DataSection(flat[..i]), Blocks(flat[i].files), |DataSection(flat[..i])|);
  }

  lemma {:induction false} BlocksPrefix(fs: seq<FileView>, j: nat)
    requires j <= |fs|
    ensures At(Blocks(fs), 0, Blocks(fs[..j]))
    decreases |fs| - j
  {
    if j == |fs| {
      assert fs[..j] == fs;
      AtSelf(Blocks(fs));
    } else {
      BlocksPrefix(fs, j + 1);
      assert fs[..j + 1][..j] == fs[..j];
      AtLeft(Blocks(fs[..j]), FileBlock(fs[j]));
      AtCompose(Blocks(fs), 0, Blocks(fs[..j + 1]), 0, Blocks(fs[..j]));
    }
  }

  /** File `k`'s bytes start where the blocks of the files before it end. */
  lemma DataIn(fs: seq<FileView>, k: nat)
    requires k < |fs|
    ensures At(Blocks(fs), |Blocks(fs[..k])|, fs[k].data)
  {
    BlocksPrefix(fs, k + 1);
    assert fs[..k + 1][..k] == fs[..k];
    AtRight(Blocks(fs[..k]), FileBlock(fs[k]));
    AtCompose(Blocks(fs), 0, Blocks(fs[..k + 1]), |Blocks(fs[..k])|, FileBlock(fs[k]));
    AtLeft(fs[k].data, Zeros(PadAfter(|fs[k].data|)));
    AtCompose(Blocks(fs), |Blocks(fs[..k])|, FileBlock(fs[k]), 0, fs[k].data);
  }

  /** The blocks of `fs[..k]` are the first block, then those of `fs[1..k]`. */
  lemma {:induction false} BlocksFront(fs: seq<FileView>, k: nat)
    requires 0 < k <= |fs|
    ensures |Blocks(fs[..k])| == |FileBlock(fs[0])| + |Blocks(fs[1..k])|
    decreases k
  {
    if k == 1 {
      assert fs[..1][..0] == [];
      assert fs[1..1] == [];
    } else {
      BlocksFront(fs, k - 1);
      assert fs[..k][..k - 1] == fs[..k - 1];
      assert fs[1..k][..k - 2] == fs[1..k - 1];
    }
  }

  /** A window of the part after a 20-byte head. */
  lemma AtAfter(whole: seq<byte>, head: seq<byte>, rest: seq<byte>, q: nat, x: seq<byte>, p: nat)
    requires whole == head + rest && |head| == 20 && At(rest, q, x) && p == 20 + q
    ensures At(whole, p, x)
  {
    AtRight(head, rest);
    AtCompose(head + rest, 20, rest, q, x);
  }

  /** File `k`'s entry `x`: index `first + k`, data offset past the blocks of the files before it. */
  lemma {:induction false} FileEntriesIn(fs: seq<FileView>, t: StrTable, first: nat, before: seq<byte>, k: nat,
                                         idx: nat, off: nat, x: seq<byte>)
    requires k < |fs| && idx == first + k && off == |before| + |Blocks(fs[..k])|
    requires x == FileEntry(Big, idx, fs[k], t, off)
    ensures At(FileEntries(Big, fs, t, first, before), 20 * k, x)
    decreases k
  {
    var whole := FileEntries(Big, fs, t, first, before);
    var head := FileEntry(Big, first, fs[0], t, |before|);
    var before' := before + FileBlock(fs[0]);
    var rest := FileEntries(Big, fs[1..], t, first + 1, before');
    assert whole == head + rest;
    if k == 0 {
      assert fs[..0] == [];
      AtLeft(head, rest);
    } else {
      var tail := fs[1..];
      BlocksFront(fs, k);
      assert tail[..k - 1] == fs[1..k] && tail[k - 1] == fs[k];
      assert |before'| == |before| + |FileBlock(fs[0])|;
      FileEntriesIn(tail, t, first + 1, before', k - 1, idx, off, x);
      AtAfter(whole, head, rest, 20 * (k - 1), x, 20 * k);
    }
  }

  lemma {:induction false} LinkEntriesPrefix(ls: seq<Link>, t: StrTable, j: nat)
    requires j <= |ls|
    ensures At(LinkEntries(Big, ls, t), 0, LinkEntries(Big, ls[..j], t))
    decreases |ls| - j
  {
    if j == |ls| {
      assert ls[..j] == ls;
      AtSelf(LinkEntries(Big, ls, t));
    } else {
      LinkEntriesPrefix(ls, t, j + 1);
      assert ls[..j + 1][..j] == ls[..j];
      AtLeft(LinkEntries(Big, ls[..j], t), LinkEntry(Big, ls[j], t));
      AtCompose(LinkEntries(Big, ls, t), 0, LinkEntries(Big, ls[..j + 1], t), 0, LinkEntries(Big, ls[..j], t));
    }
  }

  lemma LinkEntriesIn(ls: seq<Link>, t: StrTable, k: nat)
    requires k < |ls|
    ensures At(LinkEntries(Big, ls, t), 20 * k, LinkEntry(Big, ls[k], t))
  {
    LinkEntriesPrefix(ls, t, k + 1);
    assert ls[..k + 1][..k] == ls[..k];
    AtRight(LinkEntries(Big, ls[..k], t), LinkEntry(Big, ls[k], t));
    AtCompose(LinkEntries(Big, ls, t), 0, LinkEntries(Big, ls[..k + 1], t), 20 * k, LinkEntry(Big, ls[k], t));
  }

  /** Where each of four parts lies in their concatenation. */
  lemma FourParts(a: seq<byte>, b: seq<byte>, c: seq<byte>, e: seq<byte>)
    ensures At(a + b + c + e, 0, a) && At(a + b + c + e, |a|, b)
    ensures At(a + b + c + e, |a| + |b|, c) && At(a + b + c + e, |a| + |b| + |c|, e)
  {
    var es := a + b + c + e;
    AtLeft(a + b + c, e);
    AtRight(a + b + c, e);
    AtLeft(a + b, c);
    AtRight(a + b, c);
    AtLeft(a, b);
    AtRight(a, b);
    AtCompose(es, 0, a + b + c, 0, a + b);
    AtCompose(es, 0, a + b + c, |a + b|, c);
    AtCompose(es, 0, a + b, 0, a);
    AtCompose(es, 0, a + b, |a|, b);
  }

  /** A directory's entries: its files, its subfolders, ".", "..". */
  lemma DirEntriesParts(i: nat, d: DirView, t: StrTable, first: nat, before: seq<byte>)
    ensures var es := DirEntries(Big, i, d, t, first, before);
            && At(es, 0, FileEntries(Big, d.files, t, first, before))
            && At(es, 20 * |d.files|, LinkEntries(Big, d.subdirs, t))
            && At(es, 20 * (|d.files| + |d.subdirs|), DotEntry(Big, i))
            && At(es, 20 * (|d.files| + |d.subdirs|) + 20, DotDotEntry(Big, d.parent))
  {
    FourParts(FileEntries(Big, d.files, t, first, before), LinkEntries(Big, d.subdirs, t),
              DotEntry(Big, i), DotDotEntry(Big, d.parent));
  }

  // ---------------------------------------------------------------------
  // The saved image, as the reads see it
  // ---------------------------------------------------------------------

  /** Without wrap-around, the header fields `Load` reads point at the sections `Save` wrote. */
  lemma SavedHdrShape(z: Sizes, n: nat)
    requires 16 * n <= z.dirEntries && 0x40 + z.dirEntries + z.fileEntries + z.strTable + z.fileData <= z.total
    ensures var h := SavedHdr(z, n);
            && h.fsOffset == 0x20 && h.dirCount == n
            && (h.dirOffset + h.fsOffset) % TWO_32 == 0x40
            && h.fileOffset + h.fsOffset == 0x40 + z.dirEntries
            && h.strOffset + h.fsOffset == 0x40 + z.dirEntries + z.fileEntries
            && h.fsOffset + h.fsSize == 0x40 + z.dirEntries + z.fileEntries + z.strTable
            && h.strSize == z.strTable
  {
    SmallMod(n);
    SmallMod(0x20 + z.dirEntries);
    SmallMod(0x20 + z.dirEntries + z.fileEntries);
    SmallMod(0x20 + z.dirEntries + z.fileEntries + z.strTable);
  }

  /** The sizes bound the sections and the image. */
  lemma SizesBound(flat: seq<DirView>)
    requires Fits(flat)
    ensures 16 * |flat| <= SizesOf(flat).dirEntries
    ensures 0x40 + SizesOf(flat).dirEntries + SizesOf(flat).fileEntries + SizesOf(flat).strTable
            + SizesOf(flat).fileData <= SizesOf(flat).total
    ensures |TableOf(flat).bytes| <= SizesOf(flat).strTable
  {
    SectionsFit(Big, flat);
  }

  /**
    The facts about an image that the directory reads use: the header `h`
    read from it, the entries at `E`, the string table at `T` within the
    size the header gives, and the file data at `D`, each where the header
    says.
  */
  ghost predicate Placed(s: seq<byte>, h: Hdr, t: StrTable, flat: seq<DirView>, E: nat, T: nat, D: nat) {
    && h.fsOffset == 0x20 && h.dirCount == |flat| && (h.dirOffset + h.fsOffset) % TWO_32 == 0x40
    && h.fileOffset + h.fsOffset == E && h.fsOffset + h.fsSize == D
    && At(s, 0x40, DirSection(Big, flat, t))
    && At(s, E, EntrySection(Big, flat, t))
    && NamesAt(s, h, t, T)
    && At(s, D, DataSection(flat))
    && |s| < TWO_32
  }

  lemma ImagePlaced(flat: seq<DirView>)
    requires Fits(flat)
    ensures Placed(SaveImage(Big, flat), SavedHdr(SizesOf(flat), |flat|), TableOf(flat), flat,
                   EntriesStart(flat), TableStart(flat), DataStart(flat))
  {
    SizesBound(flat);
    SavedHdrShape(SizesOf(flat), |flat|);
    ImageDirSectionAt(Big, flat);
    ImageEntrySectionAt(Big, flat);
    ImageTableAt(Big, flat);
    ImageDataAt(Big, flat);
  }

  // ---------------------------------------------------------------------
  // Where each entry of a directory lies in the entry and data sections
  // ---------------------------------------------------------------------

  /** Windows compose, the position given as it will be used. */
  lemma AtVia(s: seq<byte>, p: nat, w: seq<byte>, q: nat, v: seq<byte>, r: nat)
    requires At(s, p, w) && At(w, q, v) && r == p + q
    ensures At(s, r, v)
  {
    AtCompose(s, p, w, q, v);
  }

  /** File `k`'s entry within its directory's entries. */
  lemma FileInDir(i: nat, d: DirView, t: StrTable, first: nat, before: seq<byte>, k: nat, off: nat, x: seq<byte>)
    requires k < |d.files| && off == |before| + |Blocks(d.files[..k])|
    requires x == FileEntry(Big, first + k, d.files[k], t, off)
    ensures At(DirEntries(Big, i, d, t, first, before), 20 * k, x)
  {
    var fe := FileEntries(Big, d.files, t, first, before);
    FileEntriesIn(d.files, t, first, before, k, first + k, off, x);
    DirEntriesParts(i, d, t, first, before);
    AtVia(DirEntries(Big, i, d, t, first, before), 0, fe, 20 * k, x, 20 * k);
  }

  /** File `k`'s bytes, when a directory's blocks lie at `b` of `DS`. */
  lemma DataInBlocks(DS: seq<byte>, b: nat, fs: seq<FileView>, k: nat, off: nat)
    requires At(DS, b, Blocks(fs)) && k < |fs| && off == b + |Blocks(fs[..k])|
    ensures At(DS, off, fs[k].data)
  {
    DataIn(fs, k);
    AtVia(DS, b, Blocks(fs), |Blocks(fs[..k])|, fs[k].data, off);
  }

  /** Subfolder `k`'s entry within its directory's entries, after the file entries. */
  lemma LinkInDir(i: nat, d: DirView, t: StrTable, first: nat, before: seq<byte>, k: nat, p: nat)
    requires k < |d.subdirs| && p == 20 * |d.files| + 20 * k
    ensures At(DirEntries(Big, i, d, t, first, before), p, LinkEntry(Big, d.subdirs[k], t))
  {
    DirEntriesParts(i, d, t, first, before);
    LinkEntriesIn(d.subdirs, t, k);
    AtVia(DirEntries(Big, i, d, t, first, before), 20 * |d.files|, LinkEntries(Big, d.subdirs, t),
          20 * k, LinkEntry(Big, d.subdirs[k], t), p);
  }

  // ---------------------------------------------------------------------
  // Reading a directory's entries, given each entry's read
  // ---------------------------------------------------------------------

  /** The entries `Load` collects from items read in order. */
  function Gather(xs: seq<Item>): Entries {
    if xs == [] then Entries([], []) else AddItem(Gather(xs[..|xs| - 1]), xs[|xs| - 1])
  }

  /** Entry `k` from `base` on reads as item `xs[k]`. */
  ghost predicate ItemAt(s: seq<byte>, h: Hdr, base: nat, xs: seq<Item>, k: nat)
    requires k < |xs|
  {
    ReadEntry(Big, s, h, base + 20 * k) == Some(xs[k])
  }

  lemma GatherSnoc(xs: seq<Item>, n: nat)
    requires 0 < n <= |xs|
    ensures Gather(xs[..n]) == AddItem(Gather(xs[..n - 1]), xs[n - 1])
  {
    assert xs[..n][..n - 1] == xs[..n - 1];
  }

  /** One more entry read after `n - 1` of them. */
  lemma GatherStep(s: seq<byte>, h: Hdr, base: nat, xs: seq<Item>, n: nat, m: nat)
    requires 0 < n <= |xs| && m == n - 1
    requires ReadEntries(Big, s, h, base, m) == Some(Gather(xs[..m])) && ItemAt(s, h, base, xs, m)
    ensures ReadEntries(Big, s, h, base, n) == Some(Gather(xs[..n]))
  {
    GatherSnoc(xs, n);
  }

  /** Entries read as the items `xs[..n]`, in order, give what those items add up to. */
  lemma {:induction false} ReadGather(s: seq<byte>, h: Hdr, base: nat, xs: seq<Item>, n: nat)
    requires n <= |xs|
    requires forall k :: 0 <= k < n ==> ItemAt(s, h, base, xs, k)
    ensures ReadEntries(Big, s, h, base, n) == Some(Gather(xs[..n]))
    decreases n
  {
    if n == 0 {
      assert xs[..0] == [];
    } else {
      ReadGather(s, h, base, xs, n - 1);
      GatherStep(s, h, base, xs, n, n - 1);
    }
  }

  /** The items a directory's entries read as: its files, its subfolders, then "." and "..". */
  function DirItems(d: DirView): (r: seq<Item>)
    ensures |r| == |d.files| + |d.subdirs| + 2
    ensures forall k :: 0 <= k < |d.files| ==> r[k] == FileItem(d.files[k])
    ensures forall k :: |d.files| <= k < |d.files| + |d.subdirs| ==> r[k] == LinkItem(d.subdirs[k - |d.files|].index)
    ensures r[|d.files| + |d.subdirs|] == NoItem && r[|d.files| + |d.subdirs| + 1] == NoItem
  {
    seq(|d.files|, k requires 0 <= k < |d.files| => FileItem(d.files[k]))
    + seq(|d.subdirs|, k requires 0 <= k < |d.subdirs| => LinkItem(d.subdirs[k].index))
    + [NoItem, NoItem]
  }

  lemma {:induction false} GatherFiles(xs: seq<Item>, fs: seq<FileView>, n: nat)
    requires n <= |fs| <= |xs|
    requires forall k :: 0 <= k < |fs| ==> xs[k] == FileItem(fs[k])
    ensures Gather(xs[..n]) == Entries([], fs[..n])
    decreases n
  {
    if n == 0 {
      assert xs[..0] == [];
      assert fs[..0] == [];
    } else {
      GatherFiles(xs, fs, n - 1);
      GatherSnoc(xs, n);
      assert fs[..n] == fs[..n - 1] + [fs[n - 1]];
    }
  }

  lemma {:induction false} GatherLinks(xs: seq<Item>, fs: seq<FileView>, ls: seq<Link>, j: nat)
    requires j <= |ls| && |fs| + |ls| <= |xs|
    requires forall k :: 0 <= k < |fs| ==> xs[k] == FileItem(fs[k])
    requires forall k :: |fs| <= k < |fs| + |ls| ==> xs[k] == LinkItem(ls[k - |fs|].index)
    ensures Gather(xs[..|fs| + j]) == Entries(Indices(ls[..j]), fs)
    decreases j
  {
    if j == 0 {
      GatherFiles(xs, fs, |fs|);
      assert fs[..|fs|] == fs;
      assert Indices(ls[..0]) == [];
    } else {
      GatherLinks(xs, fs, ls, j - 1);
      GatherSnoc(xs, |fs| + j);
      assert xs[|fs| + j - 1] == LinkItem(ls[j - 1].index);
      assert Indices(ls[..j]) == Indices(ls[..j - 1]) + [ls[j - 1].index];
    }
  }

  /** Two trailing items that add nothing leave the gathered entries as they were. */
  lemma GatherTail(xs: seq<Item>, n: nat)
    requires n + 2 == |xs| && xs[n] == NoItem && xs[n + 1] == NoItem
    ensures Gather(xs) == Gather(xs[..n])
  {
    assert xs[..n + 2] == xs;
    GatherSnoc(xs, n + 1);
    GatherSnoc(xs, n + 2);
  }

  /** A directory's items add up to its subfolder indices and its files. */
  lemma GatherDir(d: DirView)
    ensures Gather(DirItems(d)) == Entries(Indices(d.subdirs), d.files)
  {
    var xs := DirItems(d);
    GatherLinks(xs, d.files, d.subdirs, |d.subdirs|);
    assert d.subdirs[..|d.subdirs|] == d.subdirs;
    GatherTail(xs, |d.files| + |d.subdirs|);
  }

  // ---------------------------------------------------------------------
  // Where each entry of a directory lies in the image
  // ---------------------------------------------------------------------

  /** Where file `k`'s bytes start in the data section, past `before` and the blocks of the files before it. */
  function DataOff(before: seq<byte>, fs: seq<FileView>, k: nat): nat
    requires k <= |fs|
  {
    |before| + |Blocks(fs[..k])|
  }

  /** File `k`'s entry lies at `base + 20 * k`, naming its bytes at data offset `off`. */
  ghost predicate FileEntryPlaced(s: seq<byte>, t: StrTable, d: DirView, first: nat, base: nat, k: nat, off: nat)
    requires k < |d.files|
  {
    At(s, base + 20 * k, FileEntry(Big, first + k, d.files[k], t, off))
  }

  /** File `k`'s bytes lie at `D + off`. */
  ghost predicate FileDataPlaced(s: seq<byte>, D: nat, d: DirView, k: nat, off: nat)
    requires k < |d.files|
  {
    D + off < TWO_32 && At(s, D + off, d.files[k].data)
  }

  /** Entry `k`, past the file entries, is the entry of subfolder `k - |d.files|`. */
  ghost predicate LinkPlaced(s: seq<byte>, t: StrTable, d: DirView, base: nat, k: nat)
    requires |d.files| <= k < |d.files| + |d.subdirs|
  {
    At(s, base + 20 * k, LinkEntry(Big, d.subdirs[k - |d.files|], t))
  }

  /** "." and ".." are entries `n` and `n + 1`. */
  ghost predicate DotsPlaced(s: seq<byte>, i: nat, d: DirView, base: nat, n: nat) {
    && At(s, base + 20 * n, DotEntry(Big, i))
    && At(s, base + 20 * (n + 1), DotDotEntry(Big, d.parent))
  }

  lemma FileEntryPlacedAt(s: seq<byte>, t: StrTable, i: nat, d: DirView, first: nat, before: seq<byte>,
                          base: nat, k: nat, off: nat)
    requires At(s, base, DirEntries(Big, i, d, t, first, before))
    requires k < |d.files| && off == DataOff(before, d.files, k)
    ensures FileEntryPlaced(s, t, d, first, base, k, off)
  {
    var x := FileEntry(Big, first + k, d.files[k], t, off);
    FileInDir(i, d, t, first, before, k, off, x);
    AtVia(s, base, DirEntries(Big, i, d, t, first, before), 20 * k, x, base + 20 * k);
  }

  lemma FileDataPlacedAt(s: seq<byte>, D: nat, d: DirView, before: seq<byte>, k: nat, off: nat)
    requires At(s, D + |before|, Blocks(d.files)) && |s| < TWO_32
    requires k < |d.files| && off == DataOff(before, d.files, k)
    ensures FileDataPlaced(s, D, d, k, off)
  {
    DataInBlocks(s, D + |before|, d.files, k, D + off);
  }

  lemma LinkPlacedAt(s: seq<byte>, t: StrTable, i: nat, d: DirView, first: nat, before: seq<byte>, base: nat,
                     k: nat, j: nat)
    requires At(s, base, DirEntries(Big, i, d, t, first, before)) && j < |d.subdirs| && k == |d.files| + j
    ensures LinkPlaced(s, t, d, base, k)
  {
    LinkInDir(i, d, t, first, before, j, 20 * k);
    AtVia(s, base, DirEntries(Big, i, d, t, first, before), 20 * k, LinkEntry(Big, d.subdirs[j], t), base + 20 * k);
  }

  lemma DotsPlacedAt(s: seq<byte>, t: StrTable, i: nat, d: DirView, first: nat, before: seq<byte>, base: nat, n: nat)
    requires At(s, base, DirEntries(Big, i, d, t, first, before)) && n == |d.files| + |d.subdirs|
    ensures DotsPlaced(s, i, d, base, n)
  {
    var es := DirEntries(Big, i, d, t, first, before);
    DirEntriesParts(i, d, t, first, before);
    AtVia(s, base, es, 20 * n, DotEntry(Big, i), base + 20 * n);
    AtVia(s, base, es, 20 * n + 20, DotDotEntry(Big, d.parent), base + 20 * (n + 1));
  }

  /** Every entry of directory `d`, whose entries lie at `base` and whose blocks at `D + |before|`, is in place. */
  lemma EntriesPlaced(s: seq<byte>, t: StrTable, D: nat, i: nat, d: DirView, first: nat, before: seq<byte>, base: nat)
    requires At(s, base, DirEntries(Big, i, d, t, first, before)) && At(s, D + |before|, Blocks(d.files))
    requires |s| < TWO_32
    ensures forall k :: 0 <= k < |d.files| ==> FileEntryPlaced(s, t, d, first, base, k, DataOff(before, d.files, k))
    ensures forall k :: 0 <= k < |d.files| ==> FileDataPlaced(s, D, d, k, DataOff(before, d.files, k))
    ensures forall k :: |d.files| <= k < |d.files| + |d.subdirs| ==> LinkPlaced(s, t, d, base, k)
    ensures DotsPlaced(s, i, d, base, |d.files| + |d.subdirs|)
  {
    forall k | 0 <= k < |d.files|
      ensures FileEntryPlaced(s, t, d, first, base, k, DataOff(before, d.files, k))
      ensures FileDataPlaced(s, D, d, k, DataOff(before, d.files, k))
    {
      FileEntryPlacedAt(s, t, i, d, first, before, base, k, DataOff(before, d.files, k));
      FileDataPlacedAt(s, D, d, before, k, DataOff(before, d.files, k));
    }
    forall k | |d.files| <= k < |d.files| + |d.subdirs|
      ensures LinkPlaced(s, t, d, base, k)
    {
      LinkPlacedAt(s, t, i, d, first, before, base, k, k - |d.files|);
    }
    DotsPlacedAt(s, t, i, d, first, before, base, |d.files| + |d.subdirs|);
  }

  // ---------------------------------------------------------------------
  // Reading a directory's entries from the image
  // ---------------------------------------------------------------------

  /** A file name the table holds at a 16-bit offset, with no NUL in it. */
  ghost predicate FileNamed(t: StrTable, f: FileView) {
    Holds(t, f.name) && NoNul(f.name) && t.offsets[f.name] < 0x1_0000
  }

  /** A subfolder entry the table names, pointing at one of `count` folders. */
  ghost predicate LinkNamed(t: StrTable, l: Link, count: nat) {
    && Holds(t, l.name) && NoNul(l.name) && t.offsets[l.name] < 0x1_0000
    && l.name != DOT && l.name != DOTDOT && l.index < count
  }

  /** "." and ".." lie at the start of the table, as `Save` puts them. */
  ghost predicate DotsNamed(t: StrTable) {
    Holds(t, DOT) && t.offsets[DOT] == 0 && Holds(t, DOTDOT) && t.offsets[DOTDOT] == 2
  }

  /** Entry `k` reads as `x`, which is item `k`. */
  lemma ItemFrom(s: seq<byte>, h: Hdr, base: nat, xs: seq<Item>, k: nat, x: Item)
    requires k < |xs| && xs[k] == x && ReadEntry(Big, s, h, base + 20 * k) == Some(x)
    ensures ItemAt(s, h, base, xs, k)
  {
  }

  /** The table names directory `d`, each of its files and subfolder entries, "." and "..", and its entries fit the 16-bit count. */
  ghost predicate DirNamed(t: StrTable, d: DirView, count: nat) {
    && Holds(t, d.name) && NoNul(d.name) && |d.files| + |d.subdirs| + 2 < 0x1_0000
    && (forall k :: 0 <= k < |d.files| ==> FileNamed(t, d.files[k]))
    && (forall k :: 0 <= k < |d.subdirs| ==> LinkNamed(t, d.subdirs[k], count))
    && DotsNamed(t)
  }

  lemma FileItemAt(s: seq<byte>, h: Hdr, t: StrTable, T: nat, D: nat, d: DirView, first: nat, base: nat, k: nat, off: nat)
    requires NamesAt(s, h, t, T) && h.fsOffset + h.fsSize == D
    requires k < |d.files| && FileNamed(t, d.files[k])
    requires FileEntryPlaced(s, t, d, first, base, k, off) && FileDataPlaced(s, D, d, k, off)
    ensures ItemAt(s, h, base, DirItems(d), k)
  {
    FileEntryRead(s, h, t, T, D, base + 20 * k, first + k, d.files[k], off);
    ItemFrom(s, h, base, DirItems(d), k, FileItem(d.files[k]));
  }

  lemma LinkItemAt(s: seq<byte>, h: Hdr, t: StrTable, T: nat, d: DirView, base: nat, k: nat, j: nat)
    requires NamesAt(s, h, t, T)
    requires j < |d.subdirs| && k == |d.files| + j && LinkNamed(t, d.subdirs[j], h.dirCount)
    requires LinkPlaced(s, t, d, base, k)
    ensures ItemAt(s, h, base, DirItems(d), k)
  {
    LinkEntryRead(s, h, t, T, base + 20 * k, d.subdirs[j]);
    ItemFrom(s, h, base, DirItems(d), k, LinkItem(d.subdirs[j].index));
  }

  lemma DotItemAt(s: seq<byte>, h: Hdr, t: StrTable, T: nat, i: nat, base: nat, xs: seq<Item>, n: nat)
    requires NamesAt(s, h, t, T) && DotsNamed(t) && At(s, base + 20 * n, DotEntry(Big, i))
    requires n < |xs| && xs[n] == NoItem
    ensures ItemAt(s, h, base, xs, n)
  {
    DotEntryRead(s, h, t, T, base + 20 * n, i);
    ItemFrom(s, h, base, xs, n, NoItem);
  }

  lemma DotDotItemAt(s: seq<byte>, h: Hdr, t: StrTable, T: nat, parent: Option<nat>, base: nat, xs: seq<Item>, n: nat)
    requires NamesAt(s, h, t, T) && DotsNamed(t) && At(s, base + 20 * n, DotDotEntry(Big, parent))
    requires n < |xs| && xs[n] == NoItem
    ensures ItemAt(s, h, base, xs, n)
  {
    DotDotEntryRead(s, h, t, T, base + 20 * n, parent);
    ItemFrom(s, h, base, xs, n, NoItem);
  }

  /** With every entry of directory `d` in place at `base` and every name in the table, each entry reads as its item. */
  lemma DirItemsRead(s: seq<byte>, h: Hdr, t: StrTable, T: nat, D: nat, i: nat, d: DirView, first: nat,
                     before: seq<byte>, base: nat)
    requires NamesAt(s, h, t, T) && h.fsOffset + h.fsSize == D && DotsNamed(t)
    requires forall k :: 0 <= k < |d.files| ==> FileNamed(t, d.files[k])
    requires forall k :: 0 <= k < |d.subdirs| ==> LinkNamed(t, d.subdirs[k], h.dirCount)
    requires forall k :: 0 <= k < |d.files| ==> FileEntryPlaced(s, t, d, first, base, k, DataOff(before, d.files, k))
    requires forall k :: 0 <= k < |d.files| ==> FileDataPlaced(s, D, d, k, DataOff(before, d.files, k))
    requires forall k :: |d.files| <= k < |d.files| + |d.subdirs| ==> LinkPlaced(s, t, d, base, k)
    requires DotsPlaced(s, i, d, base, |d.files| + |d.subdirs|)
    ensures forall k :: 0 <= k < |DirItems(d)| ==> ItemAt(s, h, base, DirItems(d), k)
  {
    var xs := DirItems(d);
    var n := |d.files| + |d.subdirs|;
    forall k | 0 <= k < |xs|
      ensures ItemAt(s, h, base, xs, k)
    {
      if k < |d.files| {
        FileItemAt(s, h, t, T, D, d, first, base, k, DataOff(before, d.files, k));
      } else if k < n {
        LinkItemAt(s, h, t, T, d, base, k, k - |d.files|);
      } else if k == n {
        DotItemAt(s, h, t, T, i, base, xs, n);
      } else {
        DotDotItemAt(s, h, t, T, d.parent, base, xs, n + 1);
      }
    }
  }

  /** Entries that each read as the items of `d` read back as `d`'s subfolder indices and files. */
  lemma DirEntriesRead(s: seq<byte>, h: Hdr, base: nat, d: DirView)
    requires ItemsFacts(s, h, base, d)
    ensures ReadEntries(Big, s, h, base, |d.files| + |d.subdirs| + 2) == Some(Entries(Indices(d.subdirs), d.files))
  {
    var xs := DirItems(d);
    ReadGather(s, h, base, xs, |xs|);
    assert xs[..|xs|] == xs;
    GatherDir(d);
  }

  /** Each entry of directory `d` from `base` on reads as its item. */
  ghost predicate ItemsFacts(s: seq<byte>, h: Hdr, base: nat, d: DirView) {
    forall k :: 0 <= k < |DirItems(d)| ==> ItemAt(s, h, base, DirItems(d), k)
  }

  /** Every entry of directory `d`, at `base` with its blocks at `D + |before|`, reads as its item. */
  lemma EntriesReadAt(s: seq<byte>, h: Hdr, t: StrTable, T: nat, D: nat, i: nat, d: DirView, first: nat,
                      before: seq<byte>, base: nat)
    requires NamesAt(s, h, t, T) && h.fsOffset + h.fsSize == D && DirNamed(t, d, h.dirCount) && |s| < TWO_32
    requires At(s, base, DirEntries(Big, i, d, t, first, before)) && At(s, D + |before|, Blocks(d.files))
    ensures ItemsFacts(s, h, base, d)
  {
    EntriesPlaced(s, t, D, i, d, first, before, base);
    DirItemsRead(s, h, t, T, D, i, d, first, before, base);
  }

  /** A directory record's name offset, entry count and first entry index, as `Load` reads them. */
  lemma RecordFields(i: nat, d: DirView, t: StrTable, first: nat)
    ensures Read32(Big, DirRecord(Big, i, d, t, first), 4) == Offset(t, d.name) % TWO_32
    ensures Read16(Big, DirRecord(Big, i, d, t, first), 10) == (FileCount(d) + 2) % 0x1_0000
    ensures Read32(Big, DirRecord(Big, i, d, t, first), 12) == first % TWO_32
  {
    var r := DirRecord(Big, i, d, t, first);
    var a := DirId(Big, i, d.name);
    var o := Offset(t, d.name) % TWO_32;
    var x := HashOf(d.name);
    var c := (FileCount(d) + 2) % 0x1_0000;
    var f := first % TWO_32;
    assert r == a + Be32(o) + (Be16(x) + Be16(c) + Be32(f));
    U32BEAt(a, o, Be16(x) + Be16(c) + Be32(f));
    assert r == a + Be32(o) + Be16(x) + Be16(c) + (Be32(f) + []);
    U16BEAt(a + Be32(o) + Be16(x), c, Be32(f) + []);
    assert r == a + Be32(o) + Be16(x) + Be16(c) + Be32(f) + [];
    U32BEAt(a + Be32(o) + Be16(x) + Be16(c), f, []);
  }

  /** Without wrap-around, the 16-bit entry count of a record is the count of entries. */
  lemma CountField(d: DirView)
    requires |d.files| + |d.subdirs| + 2 < 0x1_0000
    ensures (FileCount(d) + 2) % 0x1_0000 == |d.files| + |d.subdirs| + 2
  {
    assert |d.files| % 0x1_0000 == |d.files| && |d.subdirs| % 0x1_0000 == |d.subdirs|;
  }

  /** Without wrap-around, the entries of a directory whose first entry is `first` start `20 * first` past `E`. */
  lemma EntriesAtFirst(h: Hdr, E: nat, first: nat, w: nat)
    requires h.fileOffset + h.fsOffset == E && E + 20 * first < TWO_32 && w == first
    ensures EntriesAt(h, w) == E + 20 * first
  {
    SmallMod(E + 20 * first);
  }

  /** The name offset of record `i`, at `p`, leads to `d`'s name. */
  lemma RecordName(s: seq<byte>, h: Hdr, t: StrTable, T: nat, i: nat, d: DirView, first: nat, p: nat)
    requires NamesAt(s, h, t, T) && |s| < TWO_32 && At(s, p, DirRecord(Big, i, d, t, first))
    requires Holds(t, d.name) && NoNul(d.name)
    ensures CStr(s, NameStart(h, Read32(Big, s, p + 4)), NameBound(h), []) == Some(d.name)
  {
    RecordFields(i, d, t, first);
    Read32In(Big, s, p, DirRecord(Big, i, d, t, first), 4, p + 4);
    SmallMod(t.offsets[d.name]);
    NameAtOffset(s, h, t, T, d.name, Read32(Big, s, p + 4));
  }

  /** The entry count of record `i`, at `p`, counts `d`'s entries. */
  lemma RecordCount(s: seq<byte>, i: nat, d: DirView, t: StrTable, first: nat, p: nat)
    requires At(s, p, DirRecord(Big, i, d, t, first)) && |d.files| + |d.subdirs| + 2 < 0x1_0000
    ensures Read16(Big, s, p + 10) == |d.files| + |d.subdirs| + 2
  {
    RecordFields(i, d, t, first);
    Read16In(Big, s, p, DirRecord(Big, i, d, t, first), 10, p + 10);
    CountField(d);
  }

  /** The first entry index of record `i`, at `p`, leads to `d`'s entries at `E + 20 * first`. */
  lemma RecordFirst(s: seq<byte>, h: Hdr, E: nat, i: nat, d: DirView, t: StrTable, first: nat, p: nat)
    requires At(s, p, DirRecord(Big, i, d, t, first))
    requires h.fileOffset + h.fsOffset == E && E + 20 * first < TWO_32
    ensures EntriesAt(h, Read32(Big, s, p + 12)) == E + 20 * first
  {
    RecordFields(i, d, t, first);
    Read32In(Big, s, p, DirRecord(Big, i, d, t, first), 12, p + 12);
    SmallMod(first);
    EntriesAtFirst(h, E, first, Read32(Big, s, p + 12));
  }

  /** Record `i` lies in the image and gives `d`'s name, the count of its entries and `base` for them. */
  ghost predicate RecordFacts(s: seq<byte>, h: Hdr, i: nat, d: DirView, base: nat) {
    && DirRecordAt(h, i) + 16 <= |s|
    && CStr(s, NameStart(h, Read32(Big, s, DirRecordAt(h, i) + 4)), NameBound(h), []) == Some(d.name)
    && Read16(Big, s, DirRecordAt(h, i) + 10) == |d.files| + |d.subdirs| + 2
    && EntriesAt(h, Read32(Big, s, DirRecordAt(h, i) + 12)) == base
  }

  lemma RecordFactsAt(s: seq<byte>, h: Hdr, t: StrTable, T: nat, E: nat, i: nat, d: DirView, first: nat)
    requires NamesAt(s, h, t, T) && |s| < TWO_32
    requires h.fileOffset + h.fsOffset == E && At(s, DirRecordAt(h, i), DirRecord(Big, i, d, t, first))
    requires DirNamed(t, d, h.dirCount) && E + 20 * first < TWO_32
    ensures RecordFacts(s, h, i, d, E + 20 * first)
  {
    var p := DirRecordAt(h, i);
    RecordName(s, h, t, T, i, d, first, p);
    RecordCount(s, i, d, t, first, p);
    RecordFirst(s, h, E, i, d, t, first, p);
  }

  /** A record and entries that read as `d`'s give `d` as `Load` expects it. */
  lemma ReadDirFrom(s: seq<byte>, h: Hdr, i: nat, d: DirView, base: nat)
    requires RecordFacts(s, h, i, d, base) && ItemsFacts(s, h, base, d)
    ensures ReadDir(Big, s, h, i) == Some(Expected(d))
  {
    DirEntriesRead(s, h, base, d);
  }

  // ---------------------------------------------------------------------
  // Every directory of the saved image, and the theorem
  // ---------------------------------------------------------------------

  /** The table names directory `i`, its files, the folders its subfolder entries point at, "." and "..". */
  lemma NamesReady(flat: seq<DirView>, i: nat, count: nat)
    requires Loadable(flat) && i < |flat| && count == |flat|
    ensures DirNamed(TableOf(flat), flat[i], count)
  {
    var d := flat[i];
    assert DirLoadable(flat, d);
    NamesListed(flat, i);
    TableHolds(flat, d.name);
    forall k | 0 <= k < |d.files|
      ensures FileNamed(TableOf(flat), d.files[k])
    {
      TableHolds(flat, d.files[k].name);
    }
    forall k | 0 <= k < |d.subdirs|
      ensures LinkNamed(TableOf(flat), d.subdirs[k], count)
    {
      var l := d.subdirs[k];
      assert LinkLoadable(flat, l);
      NamesListed(flat, l.index);
      TableHolds(flat, l.name);
    }
    TableDots(flat);
  }

  /** Where directory `i`'s entries start: `E` past the entries of the directories before it. */
  function Base(flat: seq<DirView>, E: nat, i: nat): nat
    requires i <= |flat|
  {
    E + 20 * EntryCount(flat[..i])
  }

  lemma RecordPlaced(s: seq<byte>, h: Hdr, t: StrTable, flat: seq<DirView>, i: nat)
    requires At(s, 0x40, DirSection(Big, flat, t)) && (h.dirOffset + h.fsOffset) % TWO_32 == 0x40 && i < |flat|
    ensures At(s, DirRecordAt(h, i), DirRecord(Big, i, flat[i], t, EntryCount(flat[..i])))
  {
    DirRecordIn(flat, t, i);
    AtVia(s, 0x40, DirSection(Big, flat, t), 16 * i, DirRecord(Big, i, flat[i], t, EntryCount(flat[..i])),
          DirRecordAt(h, i));
  }

  lemma DirEntriesPlaced(s: seq<byte>, t: StrTable, flat: seq<DirView>, E: nat, i: nat)
    requires At(s, E, EntrySection(Big, flat, t)) && i < |flat|
    ensures At(s, Base(flat, E, i), DirEntries(Big, i, flat[i], t, EntryCount(flat[..i]), DataSection(flat[..i])))
  {
    var x := DirEntries(Big, i, flat[i], t, EntryCount(flat[..i]), DataSection(flat[..i]));
    DirEntriesIn(flat, t, i, EntryCount(flat[..i]), DataSection(flat[..i]), x);
    AtVia(s, E, EntrySection(Big, flat, t), 20 * EntryCount(flat[..i]), x, Base(flat, E, i));
  }

  lemma BlocksPlaced(s: seq<byte>, flat: seq<DirView>, D: nat, i: nat)
    requires At(s, D, DataSection(flat)) && i < |flat|
    ensures At(s, D + |DataSection(flat[..i])|, Blocks(flat[i].files))
  {
    BlocksIn(flat, i);
    AtVia(s, D, DataSection(flat), |DataSection(flat[..i])|, Blocks(flat[i].files), D + |DataSection(flat[..i])|);
  }

  /** What `ReadDir` needs for directory `i` of the image. */
  ghost predicate DirReady(s: seq<byte>, h: Hdr, flat: seq<DirView>, E: nat, i: nat)
    requires i < |flat|
  {
    RecordFacts(s, h, i, flat[i], Base(flat, E, i)) && ItemsFacts(s, h, Base(flat, E, i), flat[i])
  }

  lemma RecordReady(s: seq<byte>, h: Hdr, flat: seq<DirView>, E: nat, T: nat, D: nat, i: nat)
    requires Placed(s, h, TableOf(flat), flat, E, T, D) && Loadable(flat) && i < |flat|
    ensures RecordFacts(s, h, i, flat[i], Base(flat, E, i))
  {
    var t := TableOf(flat);
    RecordPlaced(s, h, t, flat, i);
    DirEntriesPlaced(s, t, flat, E, i);
    NamesReady(flat, i, h.dirCount);
    RecordFactsAt(s, h, t, T, E, i, flat[i], EntryCount(flat[..i]));
  }

  /** Directory `i`'s entries and file blocks, where `Save` put them. */
  ghost predicate DirWindows(s: seq<byte>, flat: seq<DirView>, E: nat, D: nat, i: nat)
    requires i < |flat|
  {
    && At(s, Base(flat, E, i), DirEntries(Big, i, flat[i], TableOf(flat), EntryCount(flat[..i]), DataSection(flat[..i])))
    && At(s, D + |DataSection(flat[..i])|, Blocks(flat[i].files))
  }

  lemma DirWindowsAt(s: seq<byte>, flat: seq<DirView>, E: nat, D: nat, i: nat)
    requires At(s, E, EntrySection(Big, flat, TableOf(flat))) && At(s, D, DataSection(flat)) && i < |flat|
    ensures DirWindows(s, flat, E, D, i)
  {
    DirEntriesPlaced(s, TableOf(flat), flat, E, i);
    BlocksPlaced(s, flat, D, i);
  }

  lemma ItemsReady(s: seq<byte>, h: Hdr, flat: seq<DirView>, E: nat, T: nat, D: nat, i: nat)
    requires NamesAt(s, h, TableOf(flat), T) && h.fsOffset + h.fsSize == D && |s| < TWO_32
    requires i < |flat| && DirWindows(s, flat, E, D, i) && DirNamed(TableOf(flat), flat[i], h.dirCount)
    ensures ItemsFacts(s, h, Base(flat, E, i), flat[i])
  {
    EntriesReadAt(s, h, TableOf(flat), T, D, i, flat[i], EntryCount(flat[..i]), DataSection(flat[..i]), Base(flat, E, i));
  }

  /** In an image placed as `Save` writes it, every directory is ready to be read. */
  lemma AllReady(s: seq<byte>, h: Hdr, flat: seq<DirView>, E: nat, T: nat, D: nat)
    requires Placed(s, h, TableOf(flat), flat, E, T, D) && Loadable(flat)
    ensures forall i :: 0 <= i < |flat| ==> DirReady(s, h, flat, E, i)
  {
    forall i | 0 <= i < |flat|
      ensures DirReady(s, h, flat, E, i)
    {
      DirWindowsAt(s, flat, E, D, i);
      NamesReady(flat, i, h.dirCount);
      RecordReady(s, h, flat, E, T, D, i);
      ItemsReady(s, h, flat, E, T, D, i);
    }
  }

  /** The first `n` directories read back as expected. */
  lemma {:induction false} ReadDirsAll(s: seq<byte>, h: Hdr, flat: seq<DirView>, E: nat, n: nat)
    requires n <= |flat| && forall i :: 0 <= i < |flat| ==> DirReady(s, h, flat, E, i)
    ensures ReadDirs(Big, s, h, n) == Some(ExpectedDirs(flat, n))
    decreases n
  {
    if n > 0 {
      ReadDirsAll(s, h, flat, E, n - 1);
      assert DirReady(s, h, flat, E, n - 1);
      ReadDirFrom(s, h, n - 1, flat[n - 1], Base(flat, E, n - 1));
    }
  }

  /** `Load` of a plain image whose magic is "RARC" and whose header and directories read back. */
  lemma LoadPlain(s: seq<byte>, h: Hdr, ds: seq<LoadedDir>)
    requires |s| >= 4 && Read32(Big, s, 0) == RARC_MAGIC && ReadHdr(Big, s) == Some(h)
    requires ReadDirs(Big, s, h, h.dirCount) == Some(ds)
    ensures LoadSpec(s) == Loaded(Big, ds)
  {
  }

  /**
    `Load` inverts `Save`: the big-endian image `Save` writes for a loadable
    directory list loads back as that list, directory by directory, each
    with its name, its subfolder indices and its files.
  */
  lemma LoadInvertsSave(flat: seq<DirView>)
    requires Loadable(flat)
    ensures LoadSpec(SaveImage(Big, flat)) == Loaded(Big, ExpectedDirs(flat, |flat|))
  {
    var s := SaveImage(Big, flat);
    var h := SavedHdr(SizesOf(flat), |flat|);
    HeaderReads(Big, flat);
    ImagePlaced(flat);
    SavedHdrShape(SizesOf(flat), |flat|);
    AllReady(s, h, flat, EntriesStart(flat), TableStart(flat), DataStart(flat));
    ReadDirsAll(s, h, flat, EntriesStart(flat), |flat|);
    LoadPlain(s, h, ExpectedDirs(flat, |flat|));
  }
}
