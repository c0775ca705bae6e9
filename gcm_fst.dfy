/**
  The file system table (FST) of a GameCube disc image, as written by
  `Image::CalculateFstSize` and `FstWriteFolder` (src/GCM.cpp).

  The FST is an array of 12-byte entries followed by a string table.  An
  entry is three big-endian words: a flag byte and a 24-bit name offset,
  then for a folder its parent's index and the index one past its last
  descendant, for a file the position of its data in the image and its
  size.  Folders are written in pre-order, each folder's subfolders before
  its files, and the root (the disc's `files` folder) has no name.

  A folder tree is a value here (`Dir`); the three output streams are the
  fields of `FstWriter`, and `WriteDir` states what writing one folder
  appends to them.
*/
module GcmFst {
  import opened Util
  import opened Bytes

  /** The parent index the root folder is written with (`0xFFFFFFFF`). */
  const ROOT_PARENT: nat := 0xFFFF_FFFF

  /** The directory flag `0x01 << 24` in an entry's first word. */
  const DIR_FLAG: nat := 0x0100_0000

  /** Name offsets keep their low 24 bits (`& 0x00FFFFFF`). */
  const NAME_SPAN: nat := 0x0100_0000

  /** Bytes per entry: three `uint32_t`. */
  const ENTRY_SIZE: nat := 12

  datatype FileNode = FileNode(name: Name, data: Data)

  /** A folder: its name, its subfolders in order and its files in order. */
  datatype Dir = Dir(name: Name, subs: seq<Dir>, files: seq<FileNode>)

  // ---------------------------------------------------------------------
  // Sizes: Image::CalculateFstSize
  // ---------------------------------------------------------------------

  /** Entries below `d`: one per file and one per subfolder, with the subfolder's own. */
  function Count(d: Dir): nat
    decreases d, 1
  {
    SubsCount(d.subs) + |d.files|
  }

  function SubsCount(ss: seq<Dir>): nat
    decreases ss, 0
  {
    if ss == [] then 0 else SubsCount(ss[..|ss| - 1]) + 1 + Count(ss[|ss| - 1])
  }

  /** String-table bytes below `d`: every file and subfolder name with its NUL, none shared. */
  function NameBytes(d: Dir): nat
    decreases d, 1
  {
    SubsNames(d.subs) + FileNames(d.files)
  }

  function SubsNames(ss: seq<Dir>): nat
    decreases ss, 0
  {
    if ss == [] then 0 else SubsNames(ss[..|ss| - 1]) + |ss[|ss| - 1].name| + 1 + NameBytes(ss[|ss| - 1])
  }

  function FileNames(fs: seq<FileNode>): nat {
    if fs == [] then 0 else FileNames(fs[..|fs| - 1]) + |fs[|fs| - 1].name| + 1
  }

  /**
    `Image::CalculateFstSize`: 12 bytes per entry below `d`, returned, and
    the names' bytes added to the running string-table size.
  */
  method CalculateFstSize(d: Dir, stringTableSize: nat) returns (size: nat, strings: nat)
    decreases d
    ensures size == ENTRY_SIZE * Count(d)
    ensures strings == stringTableSize + NameBytes(d)
  {
    size, strings := 0, stringTableSize;
    var j := 0;
    while j < |d.files|
      invariant j <= |d.files|
      invariant size == ENTRY_SIZE * j && strings == stringTableSize + FileNames(d.files[..j])
    {
      assert d.files[..j + 1][..j] == d.files[..j];
      size := size + ENTRY_SIZE;
      strings := strings + |d.files[j].name| + 1;
      j := j + 1;
    }
    assert d.files[..j] == d.files;
    var k := 0;
    while k < |d.subs|
      invariant k <= |d.subs|
      invariant size == ENTRY_SIZE * (|d.files| + SubsCount(d.subs[..k]))
      invariant strings == stringTableSize + FileNames(d.files) + SubsNames(d.subs[..k])
    {
      assert d.subs[..k + 1][..k] == d.subs[..k];
      size := size + ENTRY_SIZE;
      strings := strings + |d.subs[k].name| + 1;
      var sub, str := CalculateFstSize(d.subs[k], strings);
      size, strings := size + sub, str;
      k := k + 1;
    }
    assert d.subs[..k] == d.subs;
  }

  // ---------------------------------------------------------------------
  // What FstWriteFolder appends
  // ---------------------------------------------------------------------

  /** An entry's three words, before truncation to 32 bits. */
  datatype Entry = Entry(attr: nat, first: nat, second: nat)

  /** The FST entries written so far, the string table and the image. */
  datatype Streams = Streams(fst: seq<Entry>, strings: seq<byte>, image: seq<byte>)

  /** The image after a file's data: zeros up to the next multiple of 32. */
  function Pad(x: seq<byte>): (r: seq<byte>)
    ensures |r| == RoundUp32(|x|) && x <= r
  {
    x + Zeros(RoundUp32(|x|) - |x|)
  }

  /**
    The folder's own entry for folder `d` whose parent has index `parent`:
    for the root (`parent == ROOT_PARENT`) the flag alone and parent 0,
    otherwise the flag and the offset where its name and NUL are appended.
    The third word is the index one past the last entry written for `d`.
  */
  function Opened(d: Dir, parent: nat, st: Streams): (r: Streams)
    ensures |r.fst| == |st.fst| + 1 && r.image == st.image
  {
    var next := |st.fst| + 1 + Count(d);
    if parent == ROOT_PARENT then Streams(st.fst + [Entry(DIR_FLAG, 0, next)], st.strings, st.image)
    else Streams(st.fst + [Entry(DIR_FLAG + |st.strings| % NAME_SPAN, parent, next)],
                 st.strings + d.name + [0], st.image)
  }

  /** Writing folder `d`: its own entry, then its subfolders with itself as parent, then its files. */
  function WriteDir(d: Dir, parent: nat, st: Streams): (r: Streams)
    decreases d, 2
    ensures |r.fst| == |st.fst| + 1 + Count(d)
    ensures st.fst <= r.fst && st.strings <= r.strings && st.image <= r.image
  {
    WriteFiles(d.files, WriteSubs(d.subs, |st.fst|, Opened(d, parent, st)))
  }

  function WriteSubs(ss: seq<Dir>, parent: nat, st: Streams): (r: Streams)
    decreases ss, 1
    ensures |r.fst| == |st.fst| + SubsCount(ss)
    ensures st.fst <= r.fst && st.strings <= r.strings && st.image <= r.image
  {
    if ss == [] then st else WriteDir(ss[|ss| - 1], parent, WriteSubs(ss[..|ss| - 1], parent, st))
  }

  /** One file: its entry (name offset, data position, size), its name and NUL, its data padded. */
  function FileStep(f: FileNode, st: Streams): (r: Streams)
    ensures |r.fst| == |st.fst| + 1
    ensures st.fst <= r.fst && st.strings <= r.strings && st.image <= r.image
  {
    Streams(st.fst + [Entry(|st.strings| % NAME_SPAN, |st.image|, |f.data|)],
            st.strings + f.name + [0], Pad(st.image + f.data))
  }

  function WriteFiles(fs: seq<FileNode>, st: Streams): (r: Streams)
    ensures |r.fst| == |st.fst| + |fs|
    ensures st.fst <= r.fst && st.strings <= r.strings && st.image <= r.image
  {
    if fs == [] then st else FileStep(fs[|fs| - 1], WriteFiles(fs[..|fs| - 1], st))
  }

  // ---------------------------------------------------------------------
  // Bytes of the entry array
  // ---------------------------------------------------------------------

  /** `writeUInt32`: the low 32 bits, big-endian. */
  function W32(x: nat): (r: seq<byte>)
    ensures |r| == 4
  {
    Be32(x % TWO_32)
  }

  /** A value that fits 32 bits is written unchanged. */
  lemma W32Small(x: nat)
    requires x < TWO_32
    ensures W32(x) == Be32(x)
  {
    SmallMod(x);
  }

  function EntryBytes(e: Entry): (r: seq<byte>)
    ensures |r| == ENTRY_SIZE
  {
    W32(e.attr) + W32(e.first) + W32(e.second)
  }

  function Table(es: seq<Entry>): (r: seq<byte>)
    ensures |r| == ENTRY_SIZE * |es|
  {
    if es == [] then [] else Table(es[..|es| - 1]) + EntryBytes(es[|es| - 1])
  }

  lemma TableAppend(es: seq<Entry>, e: Entry)
    ensures Table(es + [e]) == Table(es) + EntryBytes(e)
  {
    assert (es + [e])[..|es|] == es;
  }

  /** Changing the third word of entry `j` changes exactly its four bytes at `12 * j + 8`. */
  lemma {:induction false} TablePatch(es: seq<Entry>, j: nat, v: nat)
    requires j < |es|
    ensures Table(es[j := es[j].(second := v)])
         == Table(es)[..ENTRY_SIZE * j + 8] + W32(v) + Table(es)[ENTRY_SIZE * j + 12..]
  {
    var n := |es| - 1;
    var es2 := es[j := es[j].(second := v)];
    var t, b := Table(es[..n]), EntryBytes(es[n]);
    assert Table(es) == t + b;
    if j < n {
      assert es2[..n] == es[..n][j := es[j].(second := v)];
      TablePatch(es[..n], j, v);
      assert es2[n] == es[n];
      PatchBefore(t, b, W32(v), ENTRY_SIZE * j);
    } else {
      assert es2[..n] == es[..n];
      PatchLast(t, W32(es[n].attr), W32(es[n].first), W32(es[n].second), W32(v));
    }
  }

  /** A patch of `t` at `k + 8 .. k + 12` is not disturbed by bytes appended after `t`. */
  lemma PatchBefore(t: seq<byte>, b: seq<byte>, x: seq<byte>, k: nat)
    requires k + 12 <= |t|
    ensures (t[..k + 8] + x + t[k + 12..]) + b == (t + b)[..k + 8] + x + (t + b)[k + 12..]
  {
    assert (t + b)[..k + 8] == t[..k + 8];
    assert (t + b)[k + 12..] == t[k + 12..] + b;
  }

  /** Patching the third word of the last entry of a table. */
  lemma PatchLast(t: seq<byte>, w1: seq<byte>, w2: seq<byte>, w3: seq<byte>, x: seq<byte>)
    requires |w1| == 4 && |w2| == 4 && |w3| == 4
    ensures t + (w1 + w2 + x) == (t + (w1 + w2 + w3))[..|t| + 8] + x + (t + (w1 + w2 + w3))[|t| + 12..]
  {
    var s := t + (w1 + w2 + w3);
    assert s[..|t| + 8] == t + w1 + w2;
    assert s[|t| + 12..] == [];
  }

  // ---------------------------------------------------------------------
  // Writing depends only on where the streams end
  // ---------------------------------------------------------------------

  /** Replacing an entry already written does not change what writing `d` appends. */
  lemma {:induction false} DirPatch(d: Dir, parent: nat, st: Streams, j: nat, e: Entry)
    requires j < |st.fst|
    decreases d, 2
    ensures var r := WriteDir(d, parent, st);
            WriteDir(d, parent, st.(fst := st.fst[j := e])) == r.(fst := r.fst[j := e])
  {
    var st1 := Opened(d, parent, st);
    assert Opened(d, parent, st.(fst := st.fst[j := e])) == st1.(fst := st1.fst[j := e]) by {
      assert (st.fst + [st1.fst[|st.fst|]])[j := e] == st.fst[j := e] + [st1.fst[|st.fst|]];
    }
    SubsPatch(d.subs, |st.fst|, st1, j, e);
    FilesPatch(d.files, WriteSubs(d.subs, |st.fst|, st1), j, e);
  }

  lemma {:induction false} SubsPatch(ss: seq<Dir>, parent: nat, st: Streams, j: nat, e: Entry)
    requires j < |st.fst|
    decreases ss, 1
    ensures var r := WriteSubs(ss, parent, st);
            WriteSubs(ss, parent, st.(fst := st.fst[j := e])) == r.(fst := r.fst[j := e])
  {
    if ss != [] {
      SubsPatch(ss[..|ss| - 1], parent, st, j, e);
      DirPatch(ss[|ss| - 1], parent, WriteSubs(ss[..|ss| - 1], parent, st), j, e);
    }
  }

  lemma {:induction false} FilesPatch(fs: seq<FileNode>, st: Streams, j: nat, e: Entry)
    requires j < |st.fst|
    ensures var r := WriteFiles(fs, st);
            WriteFiles(fs, st.(fst := st.fst[j := e])) == r.(fst := r.fst[j := e])
  {
    if fs != [] {
      var m := WriteFiles(fs[..|fs| - 1], st);
      FilesPatch(fs[..|fs| - 1], st, j, e);
      var f := fs[|fs| - 1];
      assert (m.fst + [Entry(|m.strings| % NAME_SPAN, |m.image|, |f.data|)])[j := e]
          == m.fst[j := e] + [Entry(|m.strings| % NAME_SPAN, |m.image|, |f.data|)];
    }
  }

  /** Writing a list of files is writing a prefix of it and then the rest. */
  lemma FilesSplit(fs: seq<FileNode>, k: nat, st: Streams)
    requires k <= |fs|
    ensures WriteFiles(fs, st) == WriteFiles(fs[k..], WriteFiles(fs[..k], st))
  {
    assert fs[..k] + fs[k..] == fs;
    FilesAppend(fs[..k], fs[k..], st);
  }

  /** Writing the files `a + b` is writing `a` and then `b`. */
  lemma {:induction false} FilesAppend(a: seq<FileNode>, b: seq<FileNode>, st: Streams)
    ensures WriteFiles(a + b, st) == WriteFiles(b, WriteFiles(a, st))
  {
    if b == [] {
      assert a + b == a;
    } else {
      var n := |b| - 1;
      assert (a + b)[..|a + b| - 1] == a + b[..n];
      assert (a + b)[|a + b| - 1] == b[n];
      FilesAppend(a, b[..n], st);
    }
  }

  /** Writing a list of folders is writing a prefix of it and then the rest. */
  lemma SubsSplit(ss: seq<Dir>, k: nat, parent: nat, st: Streams)
    requires k <= |ss|
    ensures WriteSubs(ss, parent, st) == WriteSubs(ss[k..], parent, WriteSubs(ss[..k], parent, st))
  {
    assert ss[..k] + ss[k..] == ss;
    SubsAppend(ss[..k], ss[k..], parent, st);
  }

  /** Writing `a + b` is writing `a` and then `b`. */
  lemma {:induction false} SubsAppend(a: seq<Dir>, b: seq<Dir>, parent: nat, st: Streams)
    ensures WriteSubs(a + b, parent, st) == WriteSubs(b, parent, WriteSubs(a, parent, st))
  {
    if b == [] {
      assert a + b == a;
    } else {
      var n := |b| - 1;
      assert (a + b)[..|a + b| - 1] == a + b[..n];
      assert (a + b)[|a + b| - 1] == b[n];
      SubsAppend(a, b[..n], parent, st);
    }
  }

  /** Writing `d` with a placeholder in its own entry differs from writing it only in that entry. */
  lemma PlaceholderWrite(d: Dir, parent: nat, st: Streams, st1: Streams)
    requires |st1.fst| == |st.fst| + 1
    requires Opened(d, parent, st) == st1.(fst := st1.fst[|st.fst| := Opened(d, parent, st).fst[|st.fst|]])
    ensures var p := WriteFiles(d.files, WriteSubs(d.subs, |st.fst|, st1));
            WriteDir(d, parent, st) == p.(fst := p.fst[|st.fst| := Opened(d, parent, st).fst[|st.fst|]])
  {
    var own := Opened(d, parent, st).fst[|st.fst|];
    SubsPatch(d.subs, |st.fst|, st1, |st.fst|, own);
    FilesPatch(d.files, WriteSubs(d.subs, |st.fst|, st1), |st.fst|, own);
  }

  /** The image written up to the `k`-th subfolder ends inside the image written for all of them and the files. */
  lemma SubImageWithin(ss: seq<Dir>, k: nat, parent: nat, st: Streams, fs: seq<FileNode>)
    requires k < |ss|
    ensures WriteDir(ss[k], parent, WriteSubs(ss[..k], parent, st)).image
         <= WriteFiles(fs, WriteSubs(ss, parent, st)).image
  {
    var a := WriteSubs(ss[..k], parent, st);
    var b := WriteDir(ss[k], parent, a);
    assert ss[..k + 1][..k] == ss[..k];
    assert WriteSubs(ss[..k + 1], parent, st) == b;
    SubsSplit(ss, k + 1, parent, st);
    var c := WriteSubs(ss, parent, st);
    assert b.image <= c.image;
    assert c.image <= WriteFiles(fs, c).image;
  }

  /** Writing the three words of `e` one after the other appends `EntryBytes(e)`. */
  lemma EntryWords(f0: seq<byte>, e: Entry, f: seq<byte>)
    requires f == f0 + W32(e.attr) + W32(e.first) + W32(e.second)
    ensures f == f0 + EntryBytes(e)
  {
    assert f0 + W32(e.attr) + W32(e.first) + W32(e.second) == f0 + (W32(e.attr) + W32(e.first) + W32(e.second));
  }

  /**
    `Opened` is the streams with entry `e` appended, its third word the
    index after the folder, and `strings` as the new string table.
  */
  lemma OpenedEntry(d: Dir, parent: nat, st: Streams, e: Entry, strings: seq<byte>)
    requires e.second == 0
    requires parent == ROOT_PARENT ==> e == Entry(DIR_FLAG, 0, 0) && strings == st.strings
    requires parent != ROOT_PARENT ==>
               e == Entry(DIR_FLAG + |st.strings| % NAME_SPAN, parent, 0) && strings == st.strings + d.name + [0]
    ensures var o := Opened(d, parent, st); var n := |st.fst|;
      && o.fst[n] == e.(second := n + 1 + Count(d))
      && o == Streams((st.fst + [e])[n := o.fst[n]], strings, st.image)
  {
    var n := |st.fst|;
    var o := Opened(d, parent, st);
    assert o.fst == st.fst + [e.(second := n + 1 + Count(d))];
    assert (st.fst + [e])[n := o.fst[n]] == o.fst;
  }

  /** Writing the first `k + 1` folders is writing the first `k` and then folder `k`. */
  lemma SubsStep(ss: seq<Dir>, k: nat, parent: nat, st: Streams)
    requires k < |ss|
    ensures WriteSubs(ss[..k + 1], parent, st) == WriteDir(ss[k], parent, WriteSubs(ss[..k], parent, st))
  {
    assert ss[..k + 1][..k] == ss[..k];
  }

  /** Writing the first `j + 1` files is writing the first `j` and then file `j`. */
  lemma FilesStep(fs: seq<FileNode>, j: nat, st: Streams)
    requires j < |fs|
    ensures WriteFiles(fs[..j + 1], st) == FileStep(fs[j], WriteFiles(fs[..j], st))
  {
    assert fs[..j + 1][..j] == fs[..j];
  }

  /** The image up to the `j`-th file, plus that file's data, ends inside the image written for all files. */
  lemma FileImageWithin(fs: seq<FileNode>, j: nat, st: Streams)
    requires j < |fs|
    ensures |WriteFiles(fs[..j], st).image| + |fs[j].data| <= |WriteFiles(fs, st).image|
  {
    FilesSplit(fs, j + 1, st);
    assert fs[..j + 1][..j] == fs[..j];
  }

  /**
    The three streams `FstWriteFolder` writes to and the index it shares
    between calls: `fst` the entry buffer, `strings` the string table,
    `image` the disc image written so far.  `entries` is the FST that the
    bytes of `fst` hold, and `idx` counts them.
  */
  class FstWriter {
    var fst: seq<byte>
    var strings: seq<byte>
    var image: seq<byte>
    var idx: nat
    ghost var entries: seq<Entry>

    ghost predicate Valid()
      reads this
    {
      fst == Table(entries) && idx == |entries|
    }

    ghost function State(): Streams
      reads this
    {
      Streams(entries, strings, image)
    }

    /** Empty FST and string table, and an image that already holds `image0`. */
    constructor(image0: seq<byte>)
      ensures Valid() && State() == Streams([], [], image0)
    {
      fst, strings, image, idx := [], [], image0, 0;
      entries := [];
    }

    /**
      The file loop body of `FstWriteFolder`: the name and NUL go to the
      string table, the entry (name offset, image position, size) to the
      FST, the data to the image, followed by zeros up to `PadTo32`.
    */
    method WriteFile(f: FileNode)
      requires Valid() && |image| + |f.data| + 31 < TWO_32
      modifies this
      ensures Valid() && State() == FileStep(f, old(State()))
    {
      var nameOffset := |strings|;
      strings := strings + f.name + [0];
      ghost var e := Entry(nameOffset % NAME_SPAN, |image|, |f.data|);
      fst := fst + W32(nameOffset % NAME_SPAN) + W32(|image|) + W32(|f.data|);
      var img := image + f.data;
      PadTo32Value(|img|);
      var alignment := PadTo32(|img|) - |img|;
      var pad := 0;
      while pad < alignment
        invariant pad <= alignment
        invariant img == old(image) + f.data + Zeros(pad)
      {
        assert Zeros(pad + 1) == Zeros(pad) + [0];
        img := img + [0];
        pad := pad + 1;
      }
      image := img;
      TableAppend(entries, e);
      entries := entries + [e];
      idx := idx + 1;
    }

    /**
      The start of `FstWriteFolder`: the folder's own entry with a zero
      third word, at byte `nextOffs - 8` of the FST, and for a folder other
      than the root its name and NUL in the string table.
    */
    method OpenFolder(d: Dir, parentIdx: nat) returns (nextOffs: nat)
      requires Valid()
      modifies this
      ensures Valid() && |entries| == |old(entries)| + 1 && nextOffs == ENTRY_SIZE * |old(entries)| + 8
      ensures Opened(d, parentIdx, old(State())).fst[|old(entries)|]
           == entries[|old(entries)|].(second := |old(entries)| + 1 + Count(d))
      ensures var o := Opened(d, parentIdx, old(State()));
              o == State().(fst := entries[|old(entries)| := o.fst[|old(entries)|]])
    {
      ghost var st0 := State();
      ghost var f0 := fst;
      ghost var next := |st0.fst| + 1 + Count(d);
      var e: Entry;
      if parentIdx == ROOT_PARENT {
        fst := fst + W32(DIR_FLAG) + W32(0);
        nextOffs := |fst|;
        fst := fst + W32(0);
        e := Entry(DIR_FLAG, 0, 0);
      } else {
        var s := |strings|;
        fst := fst + W32(DIR_FLAG + s % NAME_SPAN);
        strings := strings + d.name + [0];
        fst := fst + W32(parentIdx);
        nextOffs := |fst|;
        fst := fst + W32(0);
        e := Entry(DIR_FLAG + s % NAME_SPAN, parentIdx, 0);
      }
      EntryWords(f0, e, fst);
      TableAppend(entries, e);
      entries := entries + [e];
      idx := idx + 1;
      OpenedEntry(d, parentIdx, st0, e, strings);
      assert State() == Streams(st0.fst + [e], strings, st0.image);
    }

    /** The back-patch of `FstWriteFolder`: the third word of entry `selfIdx` becomes the index reached. */
    method Patch(selfIdx: nat, nextOffs: nat)
      requires Valid() && selfIdx < |entries| && nextOffs == ENTRY_SIZE * selfIdx + 8
      modifies this
      ensures Valid() && entries == old(entries)[selfIdx := old(entries)[selfIdx].(second := idx)]
      ensures strings == old(strings) && image == old(image) && idx == old(idx)
    {
      TablePatch(entries, selfIdx, idx);
      fst := fst[..nextOffs] + W32(idx) + fst[nextOffs + 4..];
      entries := entries[selfIdx := entries[selfIdx].(second := idx)];
    }

    /**
      `FstWriteFolder(folder, parentIdx, idx)`: the folder's entry, its
      subfolders, its files, and then the back-patch of the entry's third
      word with the index reached.  What it writes is `WriteDir`.
    */
    method WriteFolder(d: Dir, parentIdx: nat)
      requires Valid()
      requires |WriteDir(d, parentIdx, State()).image| + 31 < TWO_32
      modifies this
      decreases d, 1
      ensures Valid() && State() == WriteDir(d, parentIdx, old(State()))
    {
      ghost var st0 := State();
      var selfIdx := idx;
      var nextOffs := OpenFolder(d, parentIdx);
      ghost var st1 := State();
      PlaceholderWrite(d, parentIdx, st0, st1);
      WriteSubfolders(d, selfIdx, st1);
      WriteFileList(d, WriteSubs(d.subs, selfIdx, st1));
      assert entries[selfIdx] == st1.fst[selfIdx];
      Patch(selfIdx, nextOffs);
    }

    /** The subfolder loop of `FstWriteFolder`, each subfolder written with parent `selfIdx`. */
    method WriteSubfolders(d: Dir, selfIdx: nat, ghost st1: Streams)
      requires Valid() && State() == st1
      requires |WriteFiles(d.files, WriteSubs(d.subs, selfIdx, st1)).image| + 31 < TWO_32
      modifies this
      decreases d, 0
      ensures Valid() && State() == WriteSubs(d.subs, selfIdx, st1)
    {
      var k := 0;
      while k < |d.subs|
        invariant Valid() && k <= |d.subs|
        invariant State() == WriteSubs(d.subs[..k], selfIdx, st1)
      {
        SubImageWithin(d.subs, k, selfIdx, st1, d.files);
        SubsStep(d.subs, k, selfIdx, st1);
        WriteFolder(d.subs[k], selfIdx);
        k := k + 1;
      }
      assert k == |d.subs| && d.subs[..k] == d.subs;
    }

    /** The file loop of `FstWriteFolder`. */
    method WriteFileList(d: Dir, ghost st2: Streams)
      requires Valid() && State() == st2
      requires |WriteFiles(d.files, st2).image| + 31 < TWO_32
      modifies this
      ensures Valid() && State() == WriteFiles(d.files, st2)
    {
      var j := 0;
      while j < |d.files|
        invariant Valid() && j <= |d.files|
        invariant State() == WriteFiles(d.files[..j], st2)
      {
        FileImageWithin(d.files, j, st2);
        FilesStep(d.files, j, st2);
        WriteFile(d.files[j]);
        j := j + 1;
      }
      assert j == |d.files| && d.files[..j] == d.files;
    }
  }
}
