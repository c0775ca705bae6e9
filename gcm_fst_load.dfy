/**
  Reading the file system table back: `Image::LoadDir` and the part of
  `Image::Load` that finds the table (src/GCM.cpp).

  `LoadDir` walks the entries from index `idx` while `idx < count`.  A
  folder entry (any of the top eight attribute bits set) becomes a new
  folder, pushed onto the list `folders`, whose own entries are then read
  with `count` set to the entry's third word; a file entry becomes a file
  of the folder being read.  Names come from the string table at the
  entry's 24-bit offset, up to the first NUL.  `ReadDir` states the whole
  walk; `FstReader.LoadDir` performs it.
*/
module GcmFstLoad {
  import opened Util
  import opened Bytes
  import opened GcmFst

  /** A folder as `LoadDir` creates it: name, `SetID(idx)`, `SetParentID(first)` and the files added to it. */
  datatype Loaded = Loaded(name: Name, id: nat, parentId: nat, files: seq<FileNode>)

  /** The bytes from `p` up to the first NUL, appended to `acc`; `None` when the disc ends first. */
  function NameFrom(s: seq<byte>, p: nat, acc: Name): Option<Name>
    decreases |s| - p
  {
    if p >= |s| then None
    else if s[p] == 0 then Some(acc)
    else NameFrom(s, p + 1, acc + [s[p]])
  }

  /** Where `LoadDir` seeks for a name: the 24-bit offset added to the table's position, in 32-bit arithmetic. */
  function NamePos(strOff: nat, attr: nat): nat {
    (strOff + attr % NAME_SPAN) % TWO_32
  }

  /** The three words of the entry at byte `at`. */
  function EntryAt(s: seq<byte>, at: nat): Entry
    requires at + ENTRY_SIZE <= |s|
  {
    Entry(U32BE(s, at), U32BE(s, at + 4), U32BE(s, at + 8))
  }

  /** `folder->AddFile`: the files of folder `owner` with `fs` appended. */
  function Attach(acc: seq<Loaded>, owner: nat, fs: seq<FileNode>): (r: seq<Loaded>)
    requires owner < |acc|
    ensures |r| == |acc|
  {
    acc[owner := acc[owner].(files := acc[owner].files + fs)]
  }

  /**
    `LoadDir(folder, folders, idx, count, stringTableOffset)` on the disc
    `disc` with the FST at `fstOff`: `owner` is the position of `folder` in
    `folders` (here `acc`).  The result is the folder list and the index
    reached, or `None` when a read runs past the end of the disc.
  */
  function ReadDir(disc: seq<byte>, fstOff: nat, strOff: nat, idx: nat, count: nat, owner: nat, acc: seq<Loaded>)
    : (r: Option<(seq<Loaded>, nat)>)
    requires owner < |acc|
    decreases |disc| - idx, 1
    ensures r.Some? ==> idx <= r.value.1 && |acc| <= |r.value.0|
    ensures r.Some? ==> r.value.1 == idx || r.value.1 <= |disc|
  {
    if idx >= count then Some((acc, idx))
    else ReadEntry(disc, fstOff, strOff, idx, count, owner, acc)
  }

  /**
    One pass of the loop of `LoadDir`: the entry at `idx`, and for a folder
    the entries below it, then the rest of the loop.  The name offset is
    added to the string table offset in 32-bit arithmetic.
  */
  function ReadEntry(disc: seq<byte>, fstOff: nat, strOff: nat, idx: nat, count: nat, owner: nat, acc: seq<Loaded>)
    : (r: Option<(seq<Loaded>, nat)>)
    requires owner < |acc| && idx < count
    decreases |disc| - idx, 0
    ensures r.Some? ==> idx < r.value.1 <= |disc| && |acc| <= |r.value.0|
  {
    if fstOff + ENTRY_SIZE * idx + ENTRY_SIZE > |disc| then None
    else
      var e := EntryAt(disc, fstOff + ENTRY_SIZE * idx);
      var name := NameFrom(disc, NamePos(strOff, e.attr), []);
      if name.None? then None
      else if e.attr >= NAME_SPAN then
        var inner := ReadDir(disc, fstOff, strOff, idx + 1, e.second, |acc|,
                             acc + [Loaded(name.value, idx % TWO_32, e.first, [])]);
        if inner.None? then None
        else ReadDir(disc, fstOff, strOff, inner.value.1, count, owner, inner.value.0)
      else if e.first + e.second > |disc| then None
      else
        ReadDir(disc, fstOff, strOff, idx + 1, count, owner,
                Attach(acc, owner, [FileNode(name.value, disc[e.first..e.first + e.second])]))
  }

  /** `ReadDir` at a folder entry whose entries below it are read: the rest with the list and index reached. */
  lemma FolderEntryStep(disc: seq<byte>, fstOff: nat, strOff: nat, idx: nat, idx1: nat, count: nat, owner: nat,
                        acc: seq<Loaded>, e: Entry, name: Name, folder: Loaded, acc1: seq<Loaded>, idx2: nat)
    requires owner < |acc| && idx < count && fstOff + ENTRY_SIZE * idx + ENTRY_SIZE <= |disc| && idx1 == idx + 1
    requires e == EntryAt(disc, fstOff + ENTRY_SIZE * idx) && e.attr >= NAME_SPAN
    requires NameFrom(disc, NamePos(strOff, e.attr), []) == Some(name)
    requires folder == Loaded(name, idx % TWO_32, e.first, [])
    requires ReadDir(disc, fstOff, strOff, idx1, e.second, |acc|, acc + [folder]) == Some((acc1, idx2))
    ensures ReadDir(disc, fstOff, strOff, idx, count, owner, acc) == ReadDir(disc, fstOff, strOff, idx2, count, owner, acc1)
    ensures |acc| < |acc1| && idx < idx2 <= |disc|
  {
    assert ReadDir(disc, fstOff, strOff, idx, count, owner, acc) == ReadEntry(disc, fstOff, strOff, idx, count, owner, acc);
  }

  /** `ReadDir` fails at a folder entry when reading the entries below it fails. */
  lemma FolderEntryFails(disc: seq<byte>, fstOff: nat, strOff: nat, idx: nat, idx1: nat, count: nat, owner: nat,
                         acc: seq<Loaded>, e: Entry, name: Name, folder: Loaded)
    requires owner < |acc| && idx < count && fstOff + ENTRY_SIZE * idx + ENTRY_SIZE <= |disc| && idx1 == idx + 1
    requires e == EntryAt(disc, fstOff + ENTRY_SIZE * idx) && e.attr >= NAME_SPAN
    requires NameFrom(disc, NamePos(strOff, e.attr), []) == Some(name)
    requires folder == Loaded(name, idx % TWO_32, e.first, [])
    requires ReadDir(disc, fstOff, strOff, idx1, e.second, |acc|, acc + [folder]) == None
    ensures ReadDir(disc, fstOff, strOff, idx, count, owner, acc) == None
  {
    assert ReadDir(disc, fstOff, strOff, idx, count, owner, acc) == ReadEntry(disc, fstOff, strOff, idx, count, owner, acc);
  }

  /** `ReadDir` fails when the entry at `idx` lies past the end of the disc. */
  lemma EntryOutside(disc: seq<byte>, fstOff: nat, strOff: nat, idx: nat, count: nat, owner: nat, acc: seq<Loaded>)
    requires owner < |acc| && idx < count && fstOff + ENTRY_SIZE * idx + ENTRY_SIZE > |disc|
    ensures ReadDir(disc, fstOff, strOff, idx, count, owner, acc) == None
  {
    assert ReadDir(disc, fstOff, strOff, idx, count, owner, acc) == ReadEntry(disc, fstOff, strOff, idx, count, owner, acc);
  }

  /** `ReadDir` fails at an entry whose name runs off the disc, or a file entry whose data does. */
  lemma EntryFails(disc: seq<byte>, fstOff: nat, strOff: nat, idx: nat, count: nat, owner: nat,
                   acc: seq<Loaded>, e: Entry)
    requires owner < |acc| && idx < count && fstOff + ENTRY_SIZE * idx + ENTRY_SIZE <= |disc|
    requires e == EntryAt(disc, fstOff + ENTRY_SIZE * idx)
    requires NameFrom(disc, NamePos(strOff, e.attr), []).None?
             || (e.attr < NAME_SPAN && e.first + e.second > |disc|)
    ensures ReadDir(disc, fstOff, strOff, idx, count, owner, acc) == None
  {
    assert ReadDir(disc, fstOff, strOff, idx, count, owner, acc) == ReadEntry(disc, fstOff, strOff, idx, count, owner, acc);
  }

  /** `ReadDir` at a file entry whose data lies on the disc: the file joins folder `owner`. */
  lemma FileEntryStep(disc: seq<byte>, fstOff: nat, strOff: nat, idx: nat, idx1: nat, count: nat, owner: nat,
                      acc: seq<Loaded>, e: Entry, name: Name, next: seq<Loaded>)
    requires owner < |acc| && idx < count && fstOff + ENTRY_SIZE * idx + ENTRY_SIZE <= |disc| && idx1 == idx + 1
    requires e == EntryAt(disc, fstOff + ENTRY_SIZE * idx) && e.attr < NAME_SPAN
    requires NameFrom(disc, NamePos(strOff, e.attr), []) == Some(name)
    requires e.first + e.second <= |disc|
    requires next == Attach(acc, owner, [FileNode(name, disc[e.first..e.first + e.second])])
    ensures ReadDir(disc, fstOff, strOff, idx, count, owner, acc)
         == ReadDir(disc, fstOff, strOff, idx1, count, owner, next)
    ensures idx < |disc|
  {
    assert ReadDir(disc, fstOff, strOff, idx, count, owner, acc) == ReadEntry(disc, fstOff, strOff, idx, count, owner, acc);
  }

  /**
    The state `LoadDir` works on: the disc, where the FST and its string
    table start, the folder list and the shared index.
  */
  class FstReader {
    const disc: seq<byte>
    const fstOff: nat
    const strOff: nat
    var folders: seq<Loaded>
    var idx: nat

    /** `Load` before its call to `LoadDir`: the list holds the `files` folder, and `idx` is 1. */
    constructor(disc: seq<byte>, fstOff: nat, strOff: nat, files: Loaded)
      ensures this.disc == disc && this.fstOff == fstOff && this.strOff == strOff
      ensures folders == [files] && idx == 1
    {
      this.disc, this.fstOff, this.strOff := disc, fstOff, strOff;
      folders, idx := [files], 1;
    }

    /** The name loop of `LoadDir`: bytes from `p` until a NUL. */
    method ReadName(p: nat) returns (name: Option<Name>)
      ensures name == NameFrom(disc, p, [])
    {
      var acc: Name := [];
      var q := p;
      var done := false;
      name := None;
      while !done && q < |disc|
        invariant NameFrom(disc, p, []) == if done then name else NameFrom(disc, q, acc)
        invariant !done ==> name == None
        decreases |disc| - q, if done then 0 else 1
      {
        if disc[q] == 0 {
          name, done := Some(acc), true;
        } else {
          acc, q := acc + [disc[q]], q + 1;
        }
      }
    }

    /**
      `Image::LoadDir(folder, folders, idx, count, stringTableOffset)` with
      `folder` at position `owner` of `folders`.  `ok` is false when a read
      runs past the end of the disc.
    */
    method LoadDir(owner: nat, count: nat) returns (ok: bool)
      requires owner < |folders|
      modifies this
      decreases |disc| - idx
      ensures ok ==> ReadDir(disc, fstOff, strOff, old(idx), count, owner, old(folders)) == Some((folders, idx))
      ensures !ok ==> ReadDir(disc, fstOff, strOff, old(idx), count, owner, old(folders)) == None
    {
      ok := true;
      while ok && idx < count
        invariant ok ==> owner < |folders| && old(idx) <= idx
        invariant ReadDir(disc, fstOff, strOff, old(idx), count, owner, old(folders))
               == if ok then ReadDir(disc, fstOff, strOff, idx, count, owner, folders) else None
        invariant ok && idx != old(idx) ==> idx <= |disc|
        decreases if ok then 1 else 0, if idx <= |disc| then |disc| - idx else 0
      {
        ok := LoadEntry(owner, count);
      }
    }

    /** One pass of the loop of `LoadDir`: the entry at `idx`, and for a folder the entries below it. */
    method LoadEntry(owner: nat, count: nat) returns (ok: bool)
      requires owner < |folders| && idx < count
      modifies this
      decreases |disc| - idx, 1
      ensures ok ==> owner < |folders| && old(idx) < idx <= |disc|
      ensures ok ==> (ReadDir(disc, fstOff, strOff, old(idx), count, owner, old(folders))
                      == ReadDir(disc, fstOff, strOff, idx, count, owner, folders))
      ensures !ok ==> ReadDir(disc, fstOff, strOff, old(idx), count, owner, old(folders)) == None
    {
      var at := fstOff + ENTRY_SIZE * idx;
      if at + ENTRY_SIZE > |disc| {
        EntryOutside(disc, fstOff, strOff, idx, count, owner, folders);
        ok := false;
      } else {
        var attr := U32BE(disc, at);
        var first := U32BE(disc, at + 4);
        var second := U32BE(disc, at + 8);
        var e := Entry(attr, first, second);
        var name := ReadName(NamePos(strOff, attr));
        if name.None? || (attr < NAME_SPAN && first + second > |disc|) {
          EntryFails(disc, fstOff, strOff, idx, count, owner, folders, e);
          ok := false;
        } else if attr >= NAME_SPAN {
          ok := LoadFolder(owner, count, e, name.value);
        } else {
          LoadFile(owner, count, e, name.value);
          ok := true;
        }
      }
    }

    /** A folder entry: a new folder with ID `idx` and parent ID `first`, then the entries below it. */
    method LoadFolder(owner: nat, count: nat, e: Entry, name: Name) returns (ok: bool)
      requires owner < |folders| && idx < count && fstOff + ENTRY_SIZE * idx + ENTRY_SIZE <= |disc|
      requires e == EntryAt(disc, fstOff + ENTRY_SIZE * idx) && e.attr >= NAME_SPAN
      requires NameFrom(disc, NamePos(strOff, e.attr), []) == Some(name)
      modifies this
      decreases |disc| - idx, 0
      ensures ok ==> owner < |folders| && old(idx) < idx <= |disc|
      ensures ok ==> (ReadDir(disc, fstOff, strOff, old(idx), count, owner, old(folders))
                      == ReadDir(disc, fstOff, strOff, idx, count, owner, folders))
      ensures !ok ==> ReadDir(disc, fstOff, strOff, old(idx), count, owner, old(folders)) == None
    {
      ghost var f0, i0 := folders, idx;
      var self := |folders|;
      var folder := Loaded(name, idx % TWO_32, e.first, []);
      folders := folders + [folder];
      idx := idx + 1;
      ghost var i1 := idx;
      ok := LoadDir(self, e.second);
      if ok {
        FolderEntryStep(disc, fstOff, strOff, i0, i1, count, owner, f0, e, name, folder, folders, idx);
      } else {
        FolderEntryFails(disc, fstOff, strOff, i0, i1, count, owner, f0, e, name, folder);
      }
    }

    /** A file entry: the file, with the `second` bytes at `first`, joins folder `owner`. */
    method LoadFile(owner: nat, count: nat, e: Entry, name: Name)
      requires owner < |folders| && idx < count && fstOff + ENTRY_SIZE * idx + ENTRY_SIZE <= |disc|
      requires e == EntryAt(disc, fstOff + ENTRY_SIZE * idx) && e.attr < NAME_SPAN
      requires NameFrom(disc, NamePos(strOff, e.attr), []) == Some(name)
      requires e.first + e.second <= |disc|
      modifies this
      ensures owner < |folders| && old(idx) < idx <= |disc|
      ensures ReadDir(disc, fstOff, strOff, old(idx), count, owner, old(folders))
           == ReadDir(disc, fstOff, strOff, idx, count, owner, folders)
    {
      ghost var f0, i0 := folders, idx;
      folders := Attach(folders, owner, [FileNode(name, disc[e.first..e.first + e.second])]);
      idx := idx + 1;
      FileEntryStep(disc, fstOff, strOff, i0, idx, count, owner, f0, e, name, folders);
    }
  }
}
