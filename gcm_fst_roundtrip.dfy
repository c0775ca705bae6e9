/**
  `Image::LoadDir` reads back what `FstWriteFolder` writes (src/GCM.cpp).

  When the disc holds the entry array at `F`, the string table at `S` and
  the image written so far, reading the entries of a folder tree written
  from the root gives the list of folders in pre-order: each with its name,
  its own index as ID, its parent's index as parent ID and its files in
  order.  The conditions are those under which no 32-bit word and no 24-bit
  name offset is truncated, and no name holds a NUL.
*/
module GcmFstRoundTrip {
  import opened Util
  import opened Bytes
  import opened GcmFst
  import opened GcmFstLoad

  predicate NoNul(n: Name) {
    forall i :: 0 <= i < |n| ==> n[i] != 0
  }

  /** Every name below `d` (not `d`'s own) is free of NUL bytes. */
  predicate NamesOk(d: Dir)
    decreases d, 1
  {
    FileNamesOk(d.files) && SubNamesOk(d.subs)
  }

  predicate SubNamesOk(ss: seq<Dir>)
    decreases ss, 0
  {
    forall k :: 0 <= k < |ss| ==> NoNul(ss[k].name) && NamesOk(ss[k])
  }

  predicate FileNamesOk(fs: seq<FileNode>) {
    forall k :: 0 <= k < |fs| ==> NoNul(fs[k].name)
  }

  /** The writer state `st` is a prefix of the final streams `w`. */
  predicate Within(st: Streams, w: Streams) {
    st.fst <= w.fst && st.strings <= w.strings && st.image <= w.image
  }

  /**
    The disc shows the streams `w`: the entries at `F`, the string table at
    `S`, and the image from position `L0` on (where the file data lie).  No
    word written overflows 32 bits, no name offset 24 bits.
  */
  predicate Shows(disc: seq<byte>, F: nat, S: nat, L0: nat, w: Streams) {
    && F + ENTRY_SIZE * |w.fst| <= |disc| && disc[F..F + ENTRY_SIZE * |w.fst|] == Table(w.fst)
    && S + |w.strings| < TWO_32 && S + |w.strings| <= |disc| && disc[S..S + |w.strings|] == w.strings
    && L0 <= |w.image| <= |disc| && disc[L0..|w.image|] == w.image[L0..]
    && |w.image| < TWO_32 && |w.strings| <= NAME_SPAN && |w.fst| < ROOT_PARENT
  }

  /** The folders `LoadDir` creates for `d`, written at index `self` with parent index `parent`. */
  function FlatDir(d: Dir, parent: nat, self: nat): (r: seq<Loaded>)
    decreases d, 1
    ensures |r| >= 1
  {
    [Loaded(d.name, self, parent, d.files)] + FlatSubs(d.subs, self, self + 1)
  }

  /** The same for the folders `ss`, all with parent `parent`, the first written at index `first`. */
  function FlatSubs(ss: seq<Dir>, parent: nat, first: nat): seq<Loaded>
    decreases ss, 0
  {
    if ss == [] then []
    else FlatSubs(ss[..|ss| - 1], parent, first) + FlatDir(ss[|ss| - 1], parent, first + SubsCount(ss[..|ss| - 1]))
  }

  // ---------------------------------------------------------------------
  // Reading single entries and names
  // ---------------------------------------------------------------------

  lemma {:induction false} TableEntry(es: seq<Entry>, i: nat)
    requires i < |es|
    ensures ENTRY_SIZE * i + ENTRY_SIZE <= ENTRY_SIZE * |es|
    ensures Table(es)[ENTRY_SIZE * i..ENTRY_SIZE * i + ENTRY_SIZE] == EntryBytes(es[i])
  {
    var n := |es| - 1;
    MulMonotone(i + 1, |es|, ENTRY_SIZE);
    if i < n {
      TableEntry(es[..n], i);
      assert Table(es)[ENTRY_SIZE * i..ENTRY_SIZE * i + ENTRY_SIZE]
          == Table(es[..n])[ENTRY_SIZE * i..ENTRY_SIZE * i + ENTRY_SIZE];
    }
  }

  /** A slice of a slice the disc shows is on the disc at the shifted place. */
  lemma SliceIn(s: seq<byte>, at: nat, t: seq<byte>, p: nat, q: nat)
    requires at + |t| <= |s| && s[at..at + |t|] == t && p <= q <= |t|
    ensures s[at + p..at + q] == t[p..q]
  {
    forall j | 0 <= j < q - p
      ensures s[at + p..at + q][j] == t[p..q][j]
    {
      assert s[at + p + j] == s[at..at + |t|][p + j];
    }
  }

  /** A word is read from the disc at `p` where a buffer it lies in, at `k`, is shown from `at`. */
  lemma WordIn(s: seq<byte>, at: nat, t: seq<byte>, k: nat, p: nat)
    requires at + |t| <= |s| && s[at..at + |t|] == t && k + 4 <= |t| && p == at + k
    ensures U32BE(s, p) == U32BE(t, k)
  {
    assert s[p] == s[at..at + |t|][k];
    assert s[p + 1] == s[at..at + |t|][k + 1];
    assert s[p + 2] == s[at..at + |t|][k + 2];
    assert s[p + 3] == s[at..at + |t|][k + 3];
  }

  /** The three words of an entry that fit 32 bits are read back from its bytes. */
  lemma EntryWords(e: Entry)
    requires e.attr < TWO_32 && e.first < TWO_32 && e.second < TWO_32
    ensures U32BE(EntryBytes(e), 0) == e.attr
    ensures U32BE(EntryBytes(e), 4) == e.first
    ensures U32BE(EntryBytes(e), 8) == e.second
  {
    W32Small(e.attr);
    W32Small(e.first);
    W32Small(e.second);
    U32BEAt([], e.attr, W32(e.first) + W32(e.second));
    assert EntryBytes(e) == [] + Be32(e.attr) + (W32(e.first) + W32(e.second));
    U32BEAt(W32(e.attr), e.first, W32(e.second));
    U32BEAt(W32(e.attr) + W32(e.first), e.second, []);
    assert EntryBytes(e) == W32(e.attr) + W32(e.first) + W32(e.second) + [];
  }

  /** Entry `i` of the table `t` at `F`, at byte `k` of it, is read back, provided its words fit. */
  lemma EntryRead(disc: seq<byte>, F: nat, es: seq<Entry>, t: seq<byte>, i: nat, k: nat)
    requires t == Table(es) && F + |t| <= |disc| && disc[F..F + |t|] == t && i < |es|
    requires es[i].attr < TWO_32 && es[i].first < TWO_32 && es[i].second < TWO_32
    requires k == ENTRY_SIZE * i
    ensures F + k + ENTRY_SIZE <= |disc|
    ensures EntryAt(disc, F + k) == es[i]
  {
    TableEntry(es, i);
    EntryIn(disc, F, t, k, es[i]);
  }

  /** An entry whose bytes lie at `k` of a buffer shown at `at` is read back from `at + k`. */
  lemma EntryIn(s: seq<byte>, at: nat, t: seq<byte>, k: nat, e: Entry)
    requires at + |t| <= |s| && s[at..at + |t|] == t
    requires k + ENTRY_SIZE <= |t| && t[k..k + ENTRY_SIZE] == EntryBytes(e)
    requires e.attr < TWO_32 && e.first < TWO_32 && e.second < TWO_32
    ensures EntryAt(s, at + k) == e
  {
    EntryWords(e);
    EntryWordIn(s, at, t, k, e, 0);
    EntryWordIn(s, at, t, k, e, 4);
    EntryWordIn(s, at, t, k, e, 8);
    EntryOfWords(s, at + k, e);
  }

  /** Word `j` of an entry whose bytes lie at `k` of a buffer shown at `at` is read from `at + k + j`. */
  lemma EntryWordIn(s: seq<byte>, at: nat, t: seq<byte>, k: nat, e: Entry, j: nat)
    requires at + |t| <= |s| && s[at..at + |t|] == t
    requires k + ENTRY_SIZE <= |t| && t[k..k + ENTRY_SIZE] == EntryBytes(e) && j + 4 <= ENTRY_SIZE
    ensures U32BE(s, at + k + j) == U32BE(EntryBytes(e), j)
  {
    WordIn(s, at, t, k + j, at + k + j);
    WordIn(t, k, EntryBytes(e), j, k + j);
  }

  lemma EntryOfWords(s: seq<byte>, at: nat, e: Entry)
    requires at + ENTRY_SIZE <= |s|
    requires U32BE(s, at) == e.attr && U32BE(s, at + 4) == e.first && U32BE(s, at + 8) == e.second
    ensures EntryAt(s, at) == e
  {
  }

  /** A name followed by NUL is read back, appended to `acc`. */
  lemma {:induction false} NameRead(s: seq<byte>, p: nat, name: Name, acc: Name)
    requires p + |name| < |s| && s[p..p + |name|] == name && s[p + |name|] == 0 && NoNul(name)
    ensures NameFrom(s, p, acc) == Some(acc + name)
    decreases |name|
  {
    if name == [] {
      assert acc + name == acc;
    } else {
      assert s[p] == name[0];
      assert s[p + 1..p + 1 + |name[1..]|] == name[1..];
      NameRead(s, p + 1, name[1..], acc + [name[0]]);
      assert acc + [name[0]] + name[1..] == acc + name;
    }
  }

  /** The name written after `pre` in the string table at `S` is read back from `p`. */
  lemma NameAt(disc: seq<byte>, S: nat, strings: seq<byte>, pre: seq<byte>, name: Name, p: nat)
    requires S + |strings| <= |disc| && disc[S..S + |strings|] == strings
    requires pre + name + [0] <= strings && NoNul(name) && p == S + |pre|
    ensures NameFrom(disc, p, []) == Some(name)
  {
    var off := |pre|;
    SliceIn(disc, S, strings, off, off + |name|);
    assert strings[off..off + |name|] == (pre + name + [0])[off..off + |name|] == name;
    assert disc[p + |name|] == strings[off + |name|] == (pre + name + [0])[off + |name|];
    NameRead(disc, p, name, []);
    assert [] + name == name;
  }

  /** A name offset below 24 bits, added to a string table position that stays below 4 GiB, does not wrap. */
  lemma NamePosFits(S: nat, attr: nat, off: nat)
    requires attr % NAME_SPAN == off && S + off < TWO_32
    ensures NamePos(S, attr) == S + off
  {
  }

  /** The image bytes `x`, written after `pre` and past `L0`, are on the disc at `|pre|`. */
  lemma ImageAt(disc: seq<byte>, L0: nat, image: seq<byte>, pre: seq<byte>, x: seq<byte>, p: nat, q: nat)
    requires L0 <= |image| <= |disc| && disc[L0..|image|] == image[L0..]
    requires L0 <= |pre| && pre + x <= image && p == |pre| && q == p + |x|
    ensures q <= |disc| && disc[p..q] == x
  {
    SliceIn(disc, L0, image[L0..], p - L0, p - L0 + |x|);
    assert image[L0..][p - L0..p - L0 + |x|] == image[p..p + |x|] == (pre + x)[p..p + |x|] == x;
  }

  lemma WithinTrans(a: Streams, b: Streams, c: Streams)
    requires Within(a, b) && Within(b, c)
    ensures Within(a, c)
  {
    assert a.fst == b.fst[..|a.fst|] == c.fst[..|a.fst|];
    assert a.strings == b.strings[..|a.strings|] == c.strings[..|a.strings|];
    assert a.image == b.image[..|a.image|] == c.image[..|a.image|];
  }

  // ---------------------------------------------------------------------
  // Files
  // ---------------------------------------------------------------------

  /** What writing file `f` after state `m` leaves in the final streams `w`. */
  lemma FileStepParts(f: FileNode, m: Streams, w: Streams)
    requires Within(FileStep(f, m), w)
    ensures |m.fst| < |w.fst| && w.fst[|m.fst|] == Entry(|m.strings| % NAME_SPAN, |m.image|, |f.data|)
    ensures m.strings + f.name + [0] <= w.strings
    ensures m.image + f.data <= w.image
  {
    var r := FileStep(f, m);
    assert w.fst[|m.fst|] == r.fst[|m.fst|];
    assert m.image + f.data <= r.image;
  }

  /** A name appended to the string table starts below 16 MiB when the whole table fits in 16 MiB. */
  lemma StringOff(pre: seq<byte>, name: Name, strings: seq<byte>)
    requires pre + name + [0] <= strings && |strings| <= NAME_SPAN
    ensures |pre| < NAME_SPAN
  {
    assert |pre + name + [0]| <= |strings|;
  }

  /** A file's attribute word is its name offset, unchanged when below 24 bits. */
  lemma FileAttr(off: nat, attr: nat)
    requires off < NAME_SPAN && attr == off % NAME_SPAN
    ensures attr % NAME_SPAN == off && attr < NAME_SPAN
  {
  }

  /** The name of a file written after the string table prefix `pre` is found where its entry points. */
  lemma FileNameFound(disc: seq<byte>, S: nat, strings: seq<byte>, pre: seq<byte>, name: Name, attr: nat)
    requires S + |strings| < TWO_32 && S + |strings| <= |disc| && disc[S..S + |strings|] == strings
    requires |strings| <= NAME_SPAN && pre + name + [0] <= strings && NoNul(name)
    requires attr == |pre| % NAME_SPAN
    ensures attr < NAME_SPAN && NameFrom(disc, NamePos(S, attr), []) == Some(name)
  {
    StringOff(pre, name, strings);
    FileAttr(|pre|, attr);
    var p := NamePos(S, attr);
    NamePosFits(S, attr, |pre|);
    NameAt(disc, S, strings, pre, name, p);
  }

  lemma NodeOfParts(f: FileNode, data: Data)
    requires data == f.data
    ensures FileNode(f.name, data) == f
  {
  }

  /** One file entry, at index `i`, is read back as the file it was written for. */
  lemma FileRead(disc: seq<byte>, F: nat, S: nat, L0: nat, w: Streams, f: FileNode, m: Streams,
                 i: nat, j: nat, count: nat, owner: nat, acc: seq<Loaded>)
    requires Shows(disc, F, S, L0, w) && L0 <= |m.image| && i == |m.fst| && j == i + 1
    requires |m.fst| < |w.fst| && w.fst[|m.fst|] == Entry(|m.strings| % NAME_SPAN, |m.image|, |f.data|)
    requires m.strings + f.name + [0] <= w.strings
    requires m.image + f.data <= w.image
    requires NoNul(f.name) && owner < |acc| && |m.fst| < count
    ensures ReadDir(disc, F, S, i, count, owner, acc) == ReadDir(disc, F, S, j, count, owner, Attach(acc, owner, [f]))
  {
    var e := w.fst[i];
    FileEntryOnDisc(disc, F, S, L0, w, f, m, i);
    FileEntryName(disc, F, S, L0, w, f, m, i);
    FileEntryData(disc, F, S, L0, w, f, m, i);
    assert [FileNode(f.name, disc[e.first..e.first + e.second])] == [f];
    FileEntryStep(disc, F, S, i, j, count, owner, acc, e, f.name, Attach(acc, owner, [f]));
  }

  /** The entry of file `f`, at index `i`, is read back from the disc. */
  lemma FileEntryOnDisc(disc: seq<byte>, F: nat, S: nat, L0: nat, w: Streams, f: FileNode, m: Streams, i: nat)
    requires Shows(disc, F, S, L0, w) && L0 <= |m.image| && i == |m.fst|
    requires |m.fst| < |w.fst| && w.fst[|m.fst|] == Entry(|m.strings| % NAME_SPAN, |m.image|, |f.data|)
    ensures F + ENTRY_SIZE * i + ENTRY_SIZE <= |disc| && w.fst[i] == EntryAt(disc, F + ENTRY_SIZE * i)
    requires m.image + f.data <= w.image
  {
    assert |m.image + f.data| <= |w.image|;
    EntryRead(disc, F, w.fst, Table(w.fst), i, ENTRY_SIZE * i);
  }

  /** The name offset in the entry of file `f` leads to the name of `f`. */
  lemma FileEntryName(disc: seq<byte>, F: nat, S: nat, L0: nat, w: Streams, f: FileNode, m: Streams, i: nat)
    requires Shows(disc, F, S, L0, w) && L0 <= |m.image| && i == |m.fst|
    requires |m.fst| < |w.fst| && w.fst[|m.fst|] == Entry(|m.strings| % NAME_SPAN, |m.image|, |f.data|)
    requires m.strings + f.name + [0] <= w.strings && NoNul(f.name)
    ensures w.fst[i].attr < NAME_SPAN && NameFrom(disc, NamePos(S, w.fst[i].attr), []) == Some(f.name)
  {
    FileNameFound(disc, S, w.strings, m.strings, f.name, w.fst[i].attr);
  }

  /** The offset and size in the entry of file `f` lead to the data of `f`. */
  lemma FileEntryData(disc: seq<byte>, F: nat, S: nat, L0: nat, w: Streams, f: FileNode, m: Streams, i: nat)
    requires Shows(disc, F, S, L0, w) && L0 <= |m.image| && i == |m.fst|
    requires |m.fst| < |w.fst| && w.fst[|m.fst|] == Entry(|m.strings| % NAME_SPAN, |m.image|, |f.data|)
    requires m.image + f.data <= w.image
    ensures w.fst[i].first + w.fst[i].second <= |disc| && disc[w.fst[i].first..w.fst[i].first + w.fst[i].second] == f.data
  {
    var e := w.fst[i];
    ImageAt(disc, L0, w.image, m.image, f.data, e.first, e.first + e.second);
  }

  /** The file entries of `fs`, from index `i` to `j`, are read back as `fs`, added to folder `owner`. */
  lemma {:induction false} FilesRead(disc: seq<byte>, F: nat, S: nat, L0: nat, w: Streams, fs: seq<FileNode>,
                                     st: Streams, i: nat, j: nat, count: nat, owner: nat, acc: seq<Loaded>)
    requires Shows(disc, F, S, L0, w) && Within(WriteFiles(fs, st), w) && L0 <= |st.image|
    requires FileNamesOk(fs) && owner < |acc| && i == |st.fst| && j == i + |fs| && j <= count
    ensures ReadDir(disc, F, S, i, count, owner, acc) == ReadDir(disc, F, S, j, count, owner, Attach(acc, owner, fs))
  {
    if fs == [] {
      AttachNone(acc, owner);
    } else {
      var n := |fs| - 1;
      var mid := i + n;
      WithinTrans(WriteFiles(fs[..n], st), WriteFiles(fs, st), w);
      FilesRead(disc, F, S, L0, w, fs[..n], st, i, mid, count, owner, acc);
      LastFileRead(disc, F, S, L0, w, fs, st, i, mid, j, count, owner, acc);
    }
  }

  /** The last file entry of `fs`, at index `mid`, is read back as the last file of `fs`. */
  lemma LastFileRead(disc: seq<byte>, F: nat, S: nat, L0: nat, w: Streams, fs: seq<FileNode>,
                     st: Streams, i: nat, mid: nat, j: nat, count: nat, owner: nat, acc: seq<Loaded>)
    requires Shows(disc, F, S, L0, w) && Within(WriteFiles(fs, st), w) && L0 <= |st.image|
    requires FileNamesOk(fs) && owner < |acc| && i == |st.fst| && |fs| > 0 && mid == i + |fs| - 1 && j == mid + 1
    requires j <= count
    ensures ReadDir(disc, F, S, mid, count, owner, Attach(acc, owner, fs[..|fs| - 1]))
         == ReadDir(disc, F, S, j, count, owner, Attach(acc, owner, fs))
  {
    var n := |fs| - 1;
    var m := WriteFiles(fs[..n], st);
    FileStepParts(fs[n], m, w);
    FileRead(disc, F, S, L0, w, fs[n], m, mid, j, count, owner, Attach(acc, owner, fs[..n]));
    assert fs[..n] + [fs[n]] == fs;
    AttachTwice(acc, owner, fs[..n], [fs[n]]);
  }

  lemma AttachNone(acc: seq<Loaded>, owner: nat)
    requires owner < |acc|
    ensures Attach(acc, owner, []) == acc
  {
    assert acc[owner].files + [] == acc[owner].files;
    assert acc[owner].(files := acc[owner].files) == acc[owner];
  }

  lemma AttachTwice(acc: seq<Loaded>, owner: nat, a: seq<FileNode>, b: seq<FileNode>)
    requires owner < |acc|
    ensures Attach(Attach(acc, owner, a), owner, b) == Attach(acc, owner, a + b)
  {
    assert acc[owner].files + a + b == acc[owner].files + (a + b);
  }

  /** A walk whose index has reached its count stops there. */
  lemma ReadDone(disc: seq<byte>, F: nat, S: nat, j: nat, owner: nat, acc: seq<Loaded>)
    requires owner < |acc|
    ensures ReadDir(disc, F, S, j, j, owner, acc) == Some((acc, j))
  {
  }

  /** Files added to the folder at the end of `acc` land in that folder, before its subfolders. */
  lemma AttachHead(acc: seq<Loaded>, folder: Loaded, x: seq<Loaded>, fs: seq<FileNode>)
    ensures Attach(acc + [folder] + x, |acc|, fs) == acc + ([folder.(files := folder.files + fs)] + x)
  {
    var a := acc + [folder] + x;
    assert a[|acc| := a[|acc|].(files := a[|acc|].files + fs)] == acc + ([folder.(files := folder.files + fs)] + x);
  }

  /** Files added to the first folder land in it. */
  lemma AttachFirst(folder: Loaded, x: seq<Loaded>, fs: seq<FileNode>)
    ensures Attach([folder] + x, 0, fs) == [folder.(files := folder.files + fs)] + x
  {
    var a := [folder] + x;
    assert a[0 := a[0].(files := a[0].files + fs)] == [folder.(files := folder.files + fs)] + x;
  }

  // ---------------------------------------------------------------------
  // Folders
  // ---------------------------------------------------------------------

  /** What writing folder `d` (not the root) after state `st` leaves in the final streams `w`. */
  lemma DirParts(d: Dir, p: nat, st: Streams, w: Streams)
    requires Within(WriteDir(d, p, st), w) && p != ROOT_PARENT
    ensures |st.fst| + 1 + Count(d) <= |w.fst|
    ensures w.fst[|st.fst|] == Entry(DIR_FLAG + |st.strings| % NAME_SPAN, p, |st.fst| + 1 + Count(d))
    ensures st.strings + d.name + [0] <= w.strings
    ensures Within(WriteSubs(d.subs, |st.fst|, Opened(d, p, st)), w)
    ensures Within(WriteFiles(d.files, WriteSubs(d.subs, |st.fst|, Opened(d, p, st))), w)
  {
    var o := Opened(d, p, st);
    var r := WriteDir(d, p, st);
    var s2 := WriteSubs(d.subs, |st.fst|, o);
    assert w.fst[|st.fst|] == r.fst[|st.fst|] == s2.fst[|st.fst|] == o.fst[|st.fst|];
    WithinTrans(s2, r, w);
    WithinTrans(o, s2, w);
  }

  /** A folder's attribute word: the flag bit and its name offset, below 24 bits. */
  lemma FolderAttr(off: nat, attr: nat)
    requires off < NAME_SPAN && attr == DIR_FLAG + off % NAME_SPAN
    ensures attr % NAME_SPAN == off && NAME_SPAN <= attr < TWO_32
  {
    SmallMod(off);
  }

  /** The entries below folder `d`, read with `d` just pushed as `folder`, give `d`'s flattened tree. */
  lemma DirInner(disc: seq<byte>, F: nat, S: nat, L0: nat, w: Streams, d: Dir, p: nat, st: Streams,
                 i: nat, i1: nat, j: nat, acc: seq<Loaded>, folder: Loaded)
    requires Shows(disc, F, S, L0, w) && Within(WriteDir(d, p, st), w) && L0 <= |st.image|
    requires NamesOk(d) && p < ROOT_PARENT && i == |st.fst| && i1 == i + 1 && j == i1 + Count(d)
    requires folder == Loaded(d.name, i, p, [])
    decreases d, 2
    ensures ReadDir(disc, F, S, i1, j, |acc|, acc + [folder]) == Some((acc + FlatDir(d, p, i), j))
  {
    var o := Opened(d, p, st);
    var s2 := WriteSubs(d.subs, i, o);
    DirParts(d, p, st, w);
    var k := i1 + SubsCount(d.subs);
    var a0 := acc + [folder];
    var x := FlatSubs(d.subs, i, i1);
    SubsRead(disc, F, S, L0, w, d.subs, i, o, i1, k, j, |acc|, a0);
    FilesRead(disc, F, S, L0, w, d.files, s2, k, j, j, |acc|, a0 + x);
    ReadDone(disc, F, S, j, |acc|, Attach(a0 + x, |acc|, d.files));
    AttachHead(acc, folder, x, d.files);
    assert [] + d.files == d.files;
  }

  /** The entry of folder `d`, written at index `i`, and its name are found on the disc. */
  lemma DirFound(disc: seq<byte>, F: nat, S: nat, L0: nat, w: Streams, d: Dir, p: nat, st: Streams,
                 i: nat, j: nat, e: Entry)
    requires Shows(disc, F, S, L0, w) && Within(WriteDir(d, p, st), w)
    requires NoNul(d.name) && p < ROOT_PARENT && i == |st.fst| && j == i + 1 + Count(d)
    requires e == Entry(DIR_FLAG + |st.strings| % NAME_SPAN, p, j)
    ensures F + ENTRY_SIZE * i + ENTRY_SIZE <= |disc| && i < j && i % TWO_32 == i
    ensures e == EntryAt(disc, F + ENTRY_SIZE * i) && e.attr >= NAME_SPAN
    ensures NameFrom(disc, NamePos(S, e.attr), []) == Some(d.name)
  {
    DirParts(d, p, st, w);
    DirNameFound(disc, S, w.strings, st.strings, d.name, e.attr);
    assert w.fst[i] == e && e.first < TWO_32 && e.second < TWO_32;
    ShownEntry(disc, F, S, L0, w, i);
    SmallMod(i);
  }

  /** The name of a folder written after the string table prefix `pre` is found where its entry points. */
  lemma DirNameFound(disc: seq<byte>, S: nat, strings: seq<byte>, pre: seq<byte>, name: Name, attr: nat)
    requires S + |strings| < TWO_32 && S + |strings| <= |disc| && disc[S..S + |strings|] == strings
    requires |strings| <= NAME_SPAN && pre + name + [0] <= strings && NoNul(name)
    requires attr == DIR_FLAG + |pre| % NAME_SPAN
    ensures NAME_SPAN <= attr < TWO_32 && NameFrom(disc, NamePos(S, attr), []) == Some(name)
  {
    StringOff(pre, name, strings);
    FolderAttr(|pre|, attr);
    NamePosFits(S, attr, |pre|);
    NameAt(disc, S, strings, pre, name, NamePos(S, attr));
  }

  /** Entry `i` of the streams the disc shows is read back, provided its words fit. */
  lemma ShownEntry(disc: seq<byte>, F: nat, S: nat, L0: nat, w: Streams, i: nat)
    requires Shows(disc, F, S, L0, w) && i < |w.fst|
    requires w.fst[i].attr < TWO_32 && w.fst[i].first < TWO_32 && w.fst[i].second < TWO_32
    ensures F + ENTRY_SIZE * i + ENTRY_SIZE <= |disc| && w.fst[i] == EntryAt(disc, F + ENTRY_SIZE * i)
  {
    EntryRead(disc, F, w.fst, Table(w.fst), i, ENTRY_SIZE * i);
  }

  /** Folder `d`, written with parent index `p` at index `i`, is read back as its flattened tree. */
  lemma DirRead(disc: seq<byte>, F: nat, S: nat, L0: nat, w: Streams, d: Dir, p: nat, st: Streams,
                i: nat, j: nat, count: nat, owner: nat, acc: seq<Loaded>)
    requires Shows(disc, F, S, L0, w) && Within(WriteDir(d, p, st), w) && L0 <= |st.image|
    requires NoNul(d.name) && NamesOk(d) && p < ROOT_PARENT && owner < |acc|
    requires i == |st.fst| && j == i + 1 + Count(d) && j <= count
    decreases d, 3
    ensures ReadDir(disc, F, S, i, count, owner, acc) == ReadDir(disc, F, S, j, count, owner, acc + FlatDir(d, p, i))
  {
    var e := Entry(DIR_FLAG + |st.strings| % NAME_SPAN, p, j);
    DirFound(disc, F, S, L0, w, d, p, st, i, j, e);
    var folder := Loaded(d.name, i, p, []);
    var i1 := i + 1;
    assert folder == Loaded(d.name, i % TWO_32, e.first, []);
    DirInner(disc, F, S, L0, w, d, p, st, i, i1, j, acc, folder);
    FolderEntryStep(disc, F, S, i, i1, count, owner, acc, e, d.name, folder, acc + FlatDir(d, p, i), j);
  }

  /** Two stretches of the walk, each adding folders at the end of the list, make one. */
  lemma ReadChain(disc: seq<byte>, F: nat, S: nat, i: nat, mid: nat, j: nat, count: nat, owner: nat,
                  acc: seq<Loaded>, x: seq<Loaded>, y: seq<Loaded>, z: seq<Loaded>)
    requires owner < |acc| && z == x + y
    requires ReadDir(disc, F, S, i, count, owner, acc) == ReadDir(disc, F, S, mid, count, owner, acc + x)
    requires ReadDir(disc, F, S, mid, count, owner, acc + x) == ReadDir(disc, F, S, j, count, owner, acc + x + y)
    ensures ReadDir(disc, F, S, i, count, owner, acc) == ReadDir(disc, F, S, j, count, owner, acc + z)
  {
    assert acc + x + y == acc + z;
  }

  /** What writing the folders `ss` leaves in the final streams `w`, split at the last one. */
  lemma SubsLastParts(ss: seq<Dir>, parent: nat, st: Streams, w: Streams)
    requires ss != [] && Within(WriteSubs(ss, parent, st), w)
    ensures Within(WriteSubs(ss[..|ss| - 1], parent, st), w)
    ensures Within(WriteDir(ss[|ss| - 1], parent, WriteSubs(ss[..|ss| - 1], parent, st)), w)
    ensures |WriteSubs(ss[..|ss| - 1], parent, st).fst| == |st.fst| + SubsCount(ss[..|ss| - 1])
    ensures |st.image| <= |WriteSubs(ss[..|ss| - 1], parent, st).image|
  {
    WithinTrans(WriteSubs(ss[..|ss| - 1], parent, st), WriteSubs(ss, parent, st), w);
  }

  /** The names below a list of folders are free of NUL bytes when those below the whole list are. */
  lemma SubsLastNames(ss: seq<Dir>)
    requires ss != [] && SubNamesOk(ss)
    ensures SubNamesOk(ss[..|ss| - 1]) && NoNul(ss[|ss| - 1].name) && NamesOk(ss[|ss| - 1])
  {
    var front := ss[..|ss| - 1];
    forall k | 0 <= k < |front|
      ensures NoNul(front[k].name) && NamesOk(front[k])
    {
      assert front[k] == ss[k];
    }
  }

  /** Flattening a list of folders: the front, then the last one at the index after the front's entries. */
  lemma FlatSubsLast(ss: seq<Dir>, parent: nat, first: nat)
    requires ss != []
    ensures SubsCount(ss) == SubsCount(ss[..|ss| - 1]) + 1 + Count(ss[|ss| - 1])
    ensures FlatSubs(ss, parent, first)
         == FlatSubs(ss[..|ss| - 1], parent, first) + FlatDir(ss[|ss| - 1], parent, first + SubsCount(ss[..|ss| - 1]))
  {
  }

  /** `FlatSubsLast` with the parts of the split named. */
  lemma FlatSplit(ss: seq<Dir>, parent: nat, i: nat, front: seq<Dir>, last: Dir, mid: nat)
    requires ss != [] && front == ss[..|ss| - 1] && last == ss[|ss| - 1] && mid == i + SubsCount(front)
    ensures FlatSubs(ss, parent, i) == FlatSubs(front, parent, i) + FlatDir(last, parent, mid)
  {
    FlatSubsLast(ss, parent, i);
  }

  /** The facts `SubsRead` needs about the list `ss` split at its last folder. */
  lemma SubsLast(ss: seq<Dir>, parent: nat, st: Streams, w: Streams, i: nat, front: seq<Dir>, last: Dir, m: Streams, mid: nat)
    requires ss != [] && Within(WriteSubs(ss, parent, st), w) && SubNamesOk(ss) && i == |st.fst|
    requires front == ss[..|ss| - 1] && last == ss[|ss| - 1] && m == WriteSubs(front, parent, st) && mid == i + SubsCount(front)
    ensures Within(m, w) && Within(WriteDir(last, parent, m), w) && |st.image| <= |m.image|
    ensures SubNamesOk(front) && NoNul(last.name) && NamesOk(last)
    ensures mid == |m.fst| && i + SubsCount(ss) == mid + 1 + Count(last)
  {
    SubsLastParts(ss, parent, st, w);
    SubsLastNames(ss);
    assert |m.fst| == |st.fst| + SubsCount(front);
    assert SubsCount(ss) == SubsCount(front) + 1 + Count(last);
  }

  /** Folders `ss`, written with parent index `parent` from index `i`, are read back as their flattened trees. */
  lemma SubsRead(disc: seq<byte>, F: nat, S: nat, L0: nat, w: Streams, ss: seq<Dir>, parent: nat, st: Streams,
                 i: nat, j: nat, count: nat, owner: nat, acc: seq<Loaded>)
    requires Shows(disc, F, S, L0, w) && Within(WriteSubs(ss, parent, st), w) && L0 <= |st.image|
    requires SubNamesOk(ss) && parent < ROOT_PARENT && owner < |acc|
    requires i == |st.fst| && j == i + SubsCount(ss) && j <= count
    decreases ss, 1
    ensures ReadDir(disc, F, S, i, count, owner, acc) == ReadDir(disc, F, S, j, count, owner, acc + FlatSubs(ss, parent, i))
  {
    if ss == [] {
      assert j == i && FlatSubs(ss, parent, i) == [] && acc + [] == acc;
    } else {
      var front, last := ss[..|ss| - 1], ss[|ss| - 1];
      var m := WriteSubs(front, parent, st);
      var mid := i + SubsCount(front);
      var x := FlatSubs(front, parent, i);
      var y := FlatDir(last, parent, mid);
      SubsLast(ss, parent, st, w, i, front, last, m, mid);
      FlatSplit(ss, parent, i, front, last, mid);
      DirRead(disc, F, S, L0, w, last, parent, m, mid, j, count, owner, acc + x);
      SubsRead(disc, F, S, L0, w, front, parent, st, i, mid, count, owner, acc);
      ReadChain(disc, F, S, i, mid, j, count, owner, acc, x, y, FlatSubs(ss, parent, i));
    }
  }

  // ---------------------------------------------------------------------
  // The whole table
  // ---------------------------------------------------------------------

  /** What writing the root folder `d` after state `st` leaves in the final streams `w`. */
  lemma RootParts(d: Dir, st: Streams, w: Streams)
    requires Within(WriteDir(d, ROOT_PARENT, st), w)
    ensures |st.fst| + 1 + Count(d) <= |w.fst|
    ensures w.fst[|st.fst|] == Entry(DIR_FLAG, 0, |st.fst| + 1 + Count(d))
    ensures Opened(d, ROOT_PARENT, st).image == st.image
    ensures |Opened(d, ROOT_PARENT, st).fst| == |st.fst| + 1
    ensures Within(WriteSubs(d.subs, |st.fst|, Opened(d, ROOT_PARENT, st)), w)
    ensures Within(WriteFiles(d.files, WriteSubs(d.subs, |st.fst|, Opened(d, ROOT_PARENT, st))), w)
  {
    var o := Opened(d, ROOT_PARENT, st);
    var r := WriteDir(d, ROOT_PARENT, st);
    var s2 := WriteSubs(d.subs, |st.fst|, o);
    assert w.fst[|st.fst|] == r.fst[|st.fst|] == s2.fst[|st.fst|] == o.fst[|st.fst|];
    WithinTrans(s2, r, w);
  }

  /** The third word of the first entry, read where the table starts. */
  lemma RootCount(disc: seq<byte>, F: nat, es: seq<Entry>, t: seq<byte>, n: nat)
    requires t == Table(es) && F + |t| <= |disc| && disc[F..F + |t|] == t
    requires es != [] && es[0] == Entry(DIR_FLAG, 0, n) && n < TWO_32
    ensures F + ENTRY_SIZE <= |disc| && U32BE(disc, F + 8) == n
  {
    TableEntry(es, 0);
    assert t[0..ENTRY_SIZE] == EntryBytes(es[0]);
    EntryWords(es[0]);
    WordIn(t, 0, EntryBytes(es[0]), 8, 8);
    WordIn(disc, F, t, 8, F + 8);
  }

  /**
    The round trip of the file system table: when the disc shows the
    streams written for the `files` folder `d` from an empty table, `Load`
    reads the entry count from the root entry, and `LoadDir`, started at
    index 1 with `files` as the only folder, gives `files` the root's files
    and lists every folder below it in pre-order, each with its name, its
    own index as ID and its parent's index as parent ID.
  */
  lemma FstRoundTrip(disc: seq<byte>, F: nat, S: nat, L0: nat, d: Dir, st: Streams, w: Streams, n: nat, files: Loaded)
    requires st.fst == [] && w == WriteDir(d, ROOT_PARENT, st) && n == 1 + Count(d)
    requires Shows(disc, F, S, L0, w) && L0 <= |st.image| && NamesOk(d)
    ensures F + ENTRY_SIZE <= |disc| && U32BE(disc, F + 8) == n
    ensures ReadDir(disc, F, S, 1, n, 0, [files])
         == Some(([files.(files := files.files + d.files)] + FlatSubs(d.subs, 0, 1), n))
  {
    var o := Opened(d, ROOT_PARENT, st);
    var s2 := WriteSubs(d.subs, 0, o);
    var k := 1 + SubsCount(d.subs);
    var x := FlatSubs(d.subs, 0, 1);
    RootParts(d, st, w);
    RootCount(disc, F, w.fst, Table(w.fst), n);
    AttachFirst(files, x, d.files);
    assert k <= n && |s2.fst| == k && L0 <= |s2.image|;
    SubsRead(disc, F, S, L0, w, d.subs, 0, o, 1, k, n, 0, [files]);
    FilesRead(disc, F, S, L0, w, d.files, s2, k, n, n, 0, [files] + x);
    ReadDone(disc, F, S, n, 0, Attach([files] + x, 0, d.files));
  }
}
