/**
  The archive objects of include/Archive.hpp and src/Archive.cpp as one
  mutable arena.  `files`, `folders` and `archives` stand for every `File`,
  `Folder` and `Rarc` object alive; a method of `Folder` or `Rarc` in the
  source is a method here that names its object by position.
*/
module RarcTree {
  import opened Util
  import opened Bytes
  import opened RarcFormat
  import opened RarcObjects
  import opened RarcLoad
  import opened RarcPaths

  /** `std::find(s.begin(), s.end(), x) - s.begin()`. */
  method Find<T(==)>(s: seq<T>, x: T) returns (i: nat)
    ensures i == IndexIn(s, x)
  {
    i := 0;
    while i < |s| && s[i] != x
      invariant i <= |s|
      invariant forall k :: 0 <= k < i ==> s[k] != x
    {
      i := i + 1;
    }
  }

  class Heap {
    var files: seq<FileRec>
    var folders: seq<FolderRec>
    var archives: seq<ArchiveRec>

    /** Every link between objects names an object of the arena. */
    ghost predicate Valid()
      reads this
    {
      && Closed(folders)
      && (forall i :: 0 <= i < |files| ==> FileLinks(files[i], |archives|))
      && (forall i :: 0 <= i < |folders| ==> FolderLinks(folders[i], |archives|, |folders|, |files|))
      && (forall a :: 0 <= a < |archives| ==> ArchiveLinks(archives[a], |folders|))
    }

    /** The last subfolder of `d`: the one `AddSubdirectory` has just attached. */
    function LastSub(d: nat): nat
      reads this
      requires d < |folders| && |folders[d].subs| > 0
    {
      folders[d].subs[|folders[d].subs| - 1]
    }

    constructor()
      ensures Valid()
      ensures files == [] && folders == [] && archives == []
    {
      files, folders, archives := [], [], [];
    }

    // -------------------------------------------------------------------
    // Creating objects and setting their fields
    // -------------------------------------------------------------------

    /** `Rarc::Create`: an archive with no directories, saving big-endian. */
    method NewArchive() returns (a: nat)
      requires Valid()
      modifies this
      ensures Valid()
      ensures a == |old(archives)| && archives == old(archives) + [ArchiveRec(Big, [])]
      ensures files == old(files) && folders == old(folders)
    {
      a := |archives|;
      archives := archives + [ArchiveRec(Big, [])];
      assert forall i :: 0 <= i < |files| ==> FileLinks(files[i], |old(archives)|);
    }

    /** `File::Create`: size 0, no data and no mounted archive. */
    method NewFile() returns (f: nat)
      requires Valid()
      modifies this
      ensures Valid()
      ensures f == |old(files)| && files == old(files) + [FileRec([], [], None)]
      ensures folders == old(folders) && archives == old(archives)
    {
      f := |files|;
      files := files + [FileRec([], [], None)];
      assert forall i :: 0 <= i < |folders| ==> FolderLinks(folders[i], |archives|, |old(folders)|, |old(files)|);
    }

    /** `File::SetData`: the file now holds a fresh copy of `data`, and its size is `|data|`. */
    method SetData(f: nat, data: Data)
      requires Valid() && f < |files|
      modifies this
      ensures Valid()
      ensures files == old(files)[f := old(files)[f].(data := data)]
      ensures folders == old(folders) && archives == old(archives)
    {
      files := files[f := files[f].(data := data)];
      assert FileLinks(old(files)[f], |archives|);
    }

    /** `File::SetName`. */
    method SetFileName(f: nat, name: Name)
      requires Valid() && f < |files|
      modifies this
      ensures Valid()
      ensures files == old(files)[f := old(files)[f].(name := name)]
      ensures folders == old(folders) && archives == old(archives)
    {
      files := files[f := files[f].(name := name)];
      assert FileLinks(old(files)[f], |archives|);
    }

    /** `Folder::Create(archive)`: an empty folder of archive `a` with no parent. */
    method NewFolder(a: nat) returns (d: nat)
      requires Valid() && a < |archives|
      modifies this
      ensures Valid()
      ensures d == |old(folders)| && folders == old(folders) + [FolderRec(a, None, [], [], [])]
      ensures files == old(files) && archives == old(archives)
    {
      d := |folders|;
      folders := folders + [FolderRec(a, None, [], [], [])];
      assert forall i :: 0 <= i < |old(folders)| ==> FolderLinks(folders[i], |archives|, |old(folders)|, |files|);
      assert forall a :: 0 <= a < |archives| ==> ArchiveLinks(archives[a], |old(folders)|);
    }

    /** `Folder::SetName`. */
    method SetFolderName(d: nat, name: Name)
      requires Valid() && d < |folders|
      modifies this
      ensures Valid()
      ensures folders == old(folders)[d := old(folders)[d].(name := name)]
      ensures files == old(files) && archives == old(archives)
    {
      folders := folders[d := folders[d].(name := name)];
      assert FolderLinks(old(folders)[d], |archives|, |folders|, |files|);
    }

    // -------------------------------------------------------------------
    // Folder contents
    // -------------------------------------------------------------------

    /** `Folder::AddFile`: the file goes at the end of the folder's list. */
    method AddFile(d: nat, f: nat)
      requires Valid() && d < |folders| && f < |files|
      modifies this
      ensures Valid()
      ensures folders == old(folders)[d := old(folders)[d].(files := old(folders)[d].files + [f])]
      ensures files == old(files) && archives == old(archives)
    {
      folders := folders[d := folders[d].(files := folders[d].files + [f])];
      assert FolderLinks(old(folders)[d], |archives|, |folders|, |files|);
    }

    /**
      `Folder::DeleteFile`: the first occurrence of the file leaves the
      folder's list (see `RemoveFirstSpec`); nothing happens when it is not
      there.
    */
    method DeleteFile(d: nat, f: nat)
      requires Valid() && d < |folders|
      modifies this
      ensures Valid()
      ensures folders == old(folders)[d := old(folders)[d].(files := RemoveFirst(old(folders)[d].files, f))]
      ensures files == old(files) && archives == old(archives)
    {
      var fs := folders[d].files;
      var i := Find(fs, f);
      if i < |fs| {
        folders := folders[d := folders[d].(files := fs[..i] + fs[i + 1..])];
      }
      assert FolderLinks(old(folders)[d], |archives|, |folders|, |files|);
    }

    /** `Folder::GetFileCount`: files plus subfolders, each count and the sum truncated to 16 bits. */
    method GetFileCount(d: nat) returns (n: nat)
      requires d < |folders|
      ensures n < 0x1_0000
      ensures n == (|folders[d].files| + |folders[d].subs|) % 0x1_0000
    {
      n := (|folders[d].files| % 0x1_0000 + |folders[d].subs| % 0x1_0000) % 0x1_0000;
    }

    /**
      The same-archive branch of `Folder::AddSubdirectory`: `dir` gets `d`
      as parent, goes at the end of `d`'s subfolders, and joins the
      archive's directory list unless it is already in it.
    */
    method Attach(d: nat, dir: nat)
      requires Valid() && d < |folders| && dir < |folders|
      modifies this
      ensures Valid()
      ensures old(folders)[dir].owner == old(folders)[d].owner ==> OutsideKept(old(folders), folders, old(folders)[d].owner)
      ensures var f1 := old(folders)[dir := old(folders)[dir].(parent := Some(d))];
              folders == f1[d := f1[d].(subs := f1[d].subs + [dir])]
      ensures var a := old(folders)[d].owner;
              archives == old(archives)[a := old(archives)[a].(dirs := old(archives)[a].dirs
                                                  + if dir in old(archives)[a].dirs then [] else [dir])]
      ensures files == old(files)
    {
      var a := folders[d].owner;
      folders := folders[dir := folders[dir].(parent := Some(d))];
      folders := folders[d := folders[d].(subs := folders[d].subs + [dir])];
      var ds := archives[a].dirs;
      var i := Find(ds, dir);
      if i == |ds| {
        archives := archives[a := archives[a].(dirs := ds + [dir])];
      } else {
        assert ds[i] == dir && ds + [] == ds;
      }
      assert FolderLinks(old(folders)[d], |archives|, |folders|, |files|);
      assert FolderLinks(old(folders)[dir], |archives|, |folders|, |files|);
      assert ArchiveLinks(old(archives)[a], |folders|);
    }

    /**
      `Folder::AddSubdirectory`.  A folder of the same archive is attached
      itself (`Attach`).  A folder of another archive is copied into this
      folder's archive (`Copy`) and the copy is attached instead; apart from
      that attachment the copy has the shape `dir` had, and no folder that
      existed before changes other than by its parent.

      When `dir` belongs to another archive, `rank` witnesses that the folders
      the copy descends through (`dir`, and below it every subfolder of
      another archive) form no cycle, which the recursion through `Copy` needs
      to end; folders it does not reach may link in any way, and attaching a
      folder of the same archive asks for nothing.  `lo` is the arena size when
      the outermost copy began: every folder created since is a copy.
    */
    method AddSubdirectory(d: nat, dir: nat, ghost lo: nat, ghost rank: map<nat, nat>)
      requires Valid() && d < |folders| && dir < |folders|
      requires folders[dir].owner != folders[d].owner ==>
                 dir in rank && Ranked(folders, folders[d].owner, lo, rank) && Layered(folders, lo)
      modifies this
      decreases if folders[dir].owner != folders[d].owner && dir in rank then rank[dir] + 1 else 0, 3
      ensures Valid()
      ensures d < |folders| && |folders[d].subs| > 0
      ensures Same(old(folders)[d].(subs := old(folders)[d].subs + [LastSub(d)]), folders[d])
      ensures folders[LastSub(d)].parent == Some(d)
      ensures KeepsBut(old(folders), folders, d)
      ensures old(folders)[dir].owner == old(folders)[d].owner ==>
                && LastSub(d) == dir && |folders| == |old(folders)|
                && (var f1 := old(folders)[dir := old(folders)[dir].(parent := Some(d))];
                    folders == f1[d := f1[d].(subs := f1[d].subs + [dir])])
                && var a := old(folders)[d].owner;
                   archives == old(archives)[a := old(archives)[a].(dirs := old(archives)[a].dirs
                                                       + if dir in old(archives)[a].dirs then [] else [dir])]
      ensures old(folders)[dir].owner != old(folders)[d].owner ==>
                && |old(folders)| <= LastSub(d) && folders[LastSub(d)].owner == folders[d].owner
                && forall n: nat :: Shape(folders[d := old(folders)[d]], LastSub(d), n) == Shape(old(folders), dir, n)
      ensures Layered(old(folders), lo) && dir < lo && lo <= d ==> Layered(folders, lo)
      ensures dir < lo ==> ParentsKept(old(folders), folders, lo)
      ensures files == old(files)
      ensures ArchivesGrow(old(archives), archives, old(folders)[d].owner)
      ensures OutsideKept(old(folders), folders, old(folders)[d].owner)
      ensures Registered(|old(folders)|, |folders|, archives[old(folders)[d].owner].dirs)
    {
      if folders[dir].owner != folders[d].owner {
        AddCopy(d, dir, lo, rank);
      } else {
        Attach(d, dir);
      }
    }

    /** The cross-archive branch of `AddSubdirectory`: a copy of `dir` is attached. */
    method AddCopy(d: nat, dir: nat, ghost lo: nat, ghost rank: map<nat, nat>)
      requires Valid() && d < |folders| && dir in rank
      requires Ranked(folders, folders[d].owner, lo, rank) && Layered(folders, lo)
      modifies this
      decreases rank[dir] + 1, 2
      ensures Valid()
      ensures d < |folders| && |folders[d].subs| > 0
      ensures Same(old(folders)[d].(subs := old(folders)[d].subs + [LastSub(d)]), folders[d])
      ensures folders[LastSub(d)].parent == Some(d)
      ensures KeepsBut(old(folders), folders, d)
      ensures |old(folders)| <= LastSub(d) && folders[LastSub(d)].owner == folders[d].owner
      ensures forall n: nat :: Shape(folders[d := old(folders)[d]], LastSub(d), n) == Shape(old(folders), dir, n)
      ensures lo <= d ==> Layered(folders, lo)
      ensures ParentsKept(old(folders), folders, lo)
      ensures files == old(files)
      ensures ArchivesGrow(old(archives), archives, old(folders)[d].owner)
      ensures OutsideKept(old(folders), folders, old(folders)[d].owner)
      ensures Registered(|old(folders)|, |folders|, archives[old(folders)[d].owner].dirs)
    {
      ghost var f0 := folders;
      var copy := Copy(dir, folders[d].owner, lo, rank);
      ghost var mid, ma := folders, archives;
      Attach(d, copy);
      ghost var restored := folders[d := f0[d]];
      forall i | 0 <= i < |mid|
        ensures Same(mid[i], restored[i])
      {
      }
      forall n: nat
        ensures Shape(restored, copy, n) == Shape(f0, dir, n)
      {
        ShapeSame(mid, restored, copy, n);
      }
      assert LastSub(d) == copy;
      KeepsButTrans(f0, mid, folders, d);
      assert ArchivesGrow(ma, archives, f0[d].owner);
      ArchivesGrowTrans(old(archives), ma, archives, f0[d].owner);
    }

    /**
      `Folder::Copy(archive)`: a new folder of archive `a` with `src`'s name,
      its subfolders attached in order through `AddSubdirectory` (so each is
      copied again unless it already belongs to `a`) and its file objects
      shared.  The copy has exactly the shape of `src`.
    */
    method Copy(src: nat, a: nat, ghost lo: nat, ghost rank: map<nat, nat>) returns (c: nat)
      requires Valid() && src in rank && a < |archives|
      requires Ranked(folders, a, lo, rank) && Layered(folders, lo)
      modifies this
      decreases rank[src] + 1, 1
      ensures Valid()
      ensures c == |old(folders)| && c < |folders|
      ensures folders[c].owner == a && folders[c].parent == None
      ensures forall n: nat :: Shape(folders, c, n) == Shape(old(folders), src, n)
      ensures KeepsBut(old(folders), folders, c)
      ensures Layered(folders, lo) && ParentsKept(old(folders), folders, lo)
      ensures files == old(files)
      ensures ArchivesGrow(old(archives), archives, a)
      ensures OutsideKept(old(folders), folders, a)
      ensures Registered(c + 1, |folders|, archives[a].dirs)
    {
      c := NewFolder(a);
      SetFolderName(c, folders[src].name);
      assert Same(old(folders)[src], folders[src]);
      ghost var f1 := folders;
      assert KeepsBut(old(folders), f1, c);
      CopySubdirs(c, src, lo, rank);
      ghost var f2 := folders;
      KeepsButTrans(old(folders), f1, f2, c);
      CopyFiles(c, src);
      KeepsButTrans(old(folders), f2, folders, c);
      forall j, n: nat | 0 <= j < |folders[c].subs|
        ensures Shape(folders, folders[c].subs[j], n) == Shape(old(folders), old(folders)[src].subs[j], n)
      {
        ShapeFrame(f2, folders, lo, c, f2[c].subs[j], n);
        ShapeFrame(old(folders), f1, lo, c, f1[src].subs[j], n);
      }
      CopyDone(old(folders), folders, c, src);
    }

    /** The loop of `Copy` over the subfolders of `src`, attaching each to the new folder `c`. */
    method CopySubdirs(c: nat, src: nat, ghost lo: nat, ghost rank: map<nat, nat>)
      requires Valid() && src in rank && c < |folders| && lo <= c && src < c
      requires Ranked(folders, folders[c].owner, lo, rank) && Layered(folders, lo)
      requires folders[c].subs == [] && folders[c].parent == None
      modifies this
      decreases rank[src] + 1, 0
      ensures Valid()
      ensures |old(folders)| <= |folders|
      ensures folders[c] == old(folders)[c].(subs := folders[c].subs)
      ensures |folders[c].subs| == |old(folders)[src].subs|
      ensures forall j, n: nat :: 0 <= j < |folders[c].subs| ==>
                Shape(folders, folders[c].subs[j], n) == Shape(old(folders), old(folders)[src].subs[j], n)
      ensures KeepsBut(old(folders), folders, c)
      ensures Layered(folders, lo) && ParentsKept(old(folders), folders, lo)
      ensures files == old(files)
      ensures ArchivesGrow(old(archives), archives, old(folders)[c].owner)
      ensures OutsideKept(old(folders), folders, old(folders)[c].owner)
      ensures Registered(|old(folders)|, |folders|, archives[old(folders)[c].owner].dirs)
    {
      ghost var f0 := folders;
      var subs := folders[src].subs;
      var k := 0;
      while k < |subs|
        invariant Valid() && k <= |subs| && c < |folders| && src < |f0|
        invariant subs == f0[src].subs
        invariant folders[c] == f0[c].(subs := folders[c].subs) && |folders[c].subs| == k
        invariant forall j, n: nat :: 0 <= j < k ==> Shape(folders, folders[c].subs[j], n) == Shape(f0, subs[j], n)
        invariant KeepsBut(f0, folders, c) && Layered(folders, lo) && Ranked(folders, f0[c].owner, lo, rank)
        invariant ParentsKept(f0, folders, lo)
        invariant files == old(files)
        invariant ArchivesGrow(old(archives), archives, f0[c].owner)
        invariant OutsideKept(f0, folders, f0[c].owner)
        invariant Registered(|f0|, |folders|, archives[f0[c].owner].dirs)
      {
        ghost var before, ba := folders, archives;
        assert Same(f0[src], before[src]);
        AddSubdirectory(c, subs[k], lo, rank);
        RegisteredGrow(|f0|, |before|, ba[f0[c].owner].dirs, archives[f0[c].owner].dirs);
        KeepsButTrans(f0, before, folders, c);
        RankedKept(before, folders, f0[c].owner, lo, rank, c);
        ArchivesGrowTrans(old(archives), ba, archives, f0[c].owner);
        CopyStep(f0, before, folders, lo, c, subs, k, LastSub(c));
        k := k + 1;
      }
    }

    /** The loop of `Copy` over the files of `src`: the same file objects, in order. */
    method CopyFiles(c: nat, src: nat)
      requires Valid() && c < |folders| && src < |folders| && src != c && folders[c].files == []
      modifies this
      ensures Valid()
      ensures folders == old(folders)[c := old(folders)[c].(files := old(folders)[src].files)]
      ensures files == old(files) && archives == old(archives)
    {
      var fs := folders[src].files;
      var j := 0;
      while j < |fs|
        invariant Valid() && j <= |fs| && |folders| == |old(folders)|
        invariant folders == old(folders)[c := old(folders)[c].(files := fs[..j])]
        invariant files == old(files) && archives == old(archives)
      {
        assert FolderLinks(folders[src], |archives|, |folders|, |files|);
        AddFile(c, fs[j]);
        assert fs[..j + 1] == fs[..j] + [fs[j]];
        j := j + 1;
      }
      assert fs[..j] == fs;
    }

    lemma ValidFilesIn()
      requires Valid()
      ensures FilesIn(files, folders)
    {
      forall i, k | 0 <= i < |folders| && 0 <= k < |folders[i].files|
        ensures folders[i].files[k] < |files|
      {
        assert FolderLinks(folders[i], |archives|, |folders|, |files|);
      }
    }

    // -------------------------------------------------------------------
    // Rarc::Load and File::MountAsArchive
    // -------------------------------------------------------------------

    /** The first loop of `Rarc::Load`: `n` new folders of archive `a`, pushed onto its directory list. */
    method CreateDirs(a: nat, n: nat)
      requires Valid() && a < |archives| && archives[a].dirs == []
      modifies this
      ensures Valid() && files == old(files) && old(folders) <= folders && |folders| == |old(folders)| + n
      ensures forall x :: |old(folders)| <= x < |folders| ==> folders[x] == FolderRec(a, None, [], [], [])
      ensures archives == old(archives)[a := old(archives)[a].(dirs := Range(|old(folders)|, n))]
    {
      var k := 0;
      assert old(archives)[a := old(archives)[a].(dirs := Range(|old(folders)|, 0))] == archives;
      while k < n
        invariant Valid() && k <= n && files == old(files) && old(folders) <= folders && |folders| == |old(folders)| + k
        invariant forall x :: |old(folders)| <= x < |folders| ==> folders[x] == FolderRec(a, None, [], [], [])
        invariant archives == old(archives)[a := old(archives)[a].(dirs := Range(|old(folders)|, k))]
      {
        var d := NewFolder(a);
        archives := archives[a := archives[a].(dirs := archives[a].dirs + [d])];
        assert Range(|old(folders)|, k) + [d] == Range(|old(folders)|, k + 1);
        assert ArchiveLinks(archives[a], |folders|);
        k := k + 1;
      }
    }

    /** The files of one directory record: for each, a new `File` named and filled, added to folder `d`. */
    method LoadFiles(d: nat, fs: seq<FileView>) returns (ids: seq<nat>)
      requires Valid() && d < |folders| && folders[d].files == []
      modifies this
      ensures Valid() && old(files) <= files
      ensures folders == old(folders)[d := old(folders)[d].(files := ids)]
      ensures (forall k :: 0 <= k < |ids| ==> ids[k] < |files|) && FileViews(files, ids) == fs
      ensures archives == old(archives)
    {
      ids := [];
      var k := 0;
      while k < |fs|
        invariant Valid() && k <= |fs| && old(files) <= files
        invariant folders == old(folders)[d := old(folders)[d].(files := ids)]
        invariant (forall j :: 0 <= j < |ids| ==> ids[j] < |files|) && FileViews(files, ids) == fs[..k]
        invariant archives == old(archives)
      {
        ghost var before := files;
        var f := NewFile();
        SetFileName(f, fs[k].name);
        SetData(f, fs[k].data);
        AddFile(d, f);
        assert FileViews(files, ids) == FileViews(before, ids);
        assert FileViews(files, ids + [f]) == FileViews(files, ids) + [fs[k]];
        assert fs[..k + 1] == fs[..k] + [fs[k]];
        ids := ids + [f];
        k := k + 1;
      }
      assert fs[..k] == fs;
    }

    /** The subfolder links of one directory record, attached in order to folder `d` (all of them already in its archive). */
    method LinkSubdirs(d: nat, targets: seq<nat>)
      requires Valid() && d < |folders|
      requires forall k :: 0 <= k < |targets| ==> targets[k] in archives[folders[d].owner].dirs
      modifies this
      ensures Valid() && files == old(files) && archives == old(archives)
      ensures (forall k :: 0 <= k < |targets| ==> targets[k] < |old(folders)|) && folders == Linked(old(folders), d, targets)
    {
      var a := folders[d].owner;
      forall k | 0 <= k < |targets|
        ensures targets[k] < |folders|
      {
        assert ArchiveLinks(archives[a], |folders|);
      }
      var k := 0;
      while k < |targets|
        invariant Valid() && k <= |targets| && |folders| == |old(folders)| && folders[d].owner == a
        invariant folders == Linked(old(folders), d, targets[..k])
        invariant files == old(files) && archives == old(archives)
      {
        ghost var ar := archives;
        assert targets[k] in ar[a].dirs;
        Attach(d, targets[k]);
        assert ar[a].(dirs := ar[a].dirs + []) == ar[a];
        assert archives == ar;
        assert targets[..k + 1][..k] == targets[..k];
        k := k + 1;
      }
      assert targets[..k] == targets;
    }

    /** One pass of the directory loop of `Rarc::Load`: name, files, then subfolder links of directory `i`. */
    method LoadDir(a: nat, base: nat, ds: seq<LoadedDir>, i: nat)
      requires Valid() && Loading(files, folders, archives, a, base, ds, i) && i < |ds| && ClosedDirs(ds)
      modifies this
      ensures Valid() && Loading(files, folders, archives, a, base, ds, i + 1)
      ensures old(files) <= files && folders[..base] == old(folders)[..base] && archives == old(archives)
    {
      ghost var f0 := folders;
      assert folders[base + i].owner == a;
      assert Blank(folders, base + i);
      SetFolderName(base + i, ds[i].name);
      var ids := LoadFiles(base + i, ds[i].files);
      ghost var named := folders;
      assert named == f0[base + i := f0[base + i].(name := ds[i].name, files := ids)];
      var targets := Shift(ds[i].subdirs, base);
      forall k | 0 <= k < |targets|
        ensures targets[k] in archives[folders[base + i].owner].dirs
      {
        assert Range(base, |ds|)[ds[i].subdirs[k]] == targets[k];
      }
      LinkSubdirs(base + i, targets);
      LoadStep(old(files), f0, archives, a, base, ds, i, files, ids, named, folders);
    }

    /** The directory loop of `Rarc::Load`. */
    method LoadDirs(a: nat, base: nat, ds: seq<LoadedDir>)
      requires Valid() && Loading(files, folders, archives, a, base, ds, 0) && ClosedDirs(ds)
      modifies this
      ensures Valid() && Loading(files, folders, archives, a, base, ds, |ds|)
      ensures old(files) <= files && folders[..base] == old(folders)[..base] && archives == old(archives)
    {
      var i := 0;
      while i < |ds|
        invariant Valid() && i <= |ds| && Loading(files, folders, archives, a, base, ds, i)
        invariant old(files) <= files && folders[..base] == old(folders)[..base] && archives == old(archives)
      {
        LoadDir(a, base, ds, i);
        i := i + 1;
      }
    }

    /**
      `Rarc::Load` into archive `a`, which has no directories yet.  On an
      archive stream it returns true and leaves `a` holding the folders read
      (`Loading` with every directory done: names, subfolder links, file
      contents, and each folder's parent the last folder linking it), saving
      little-endian when the magic read reversed.  On anything else it
      returns false and changes nothing.
    */
    method LoadInto(a: nat, stream: seq<byte>) returns (ok: bool)
      requires Valid() && a < |archives| && archives[a].dirs == []
      modifies this
      ensures Valid()
      ensures ok <==> LoadSpec(stream).Loaded?
      ensures !ok ==> files == old(files) && folders == old(folders) && archives == old(archives)
      ensures ok ==> old(files) <= files && old(folders) <= folders
      ensures ok ==> archives == old(archives)[a := ArchiveRec(
                       if LoadSpec(stream).order == Little then Little else old(archives)[a].order,
                       Range(|old(folders)|, |LoadSpec(stream).dirs|))]
      ensures ok ==> Loading(files, folders, archives, a, |old(folders)|, LoadSpec(stream).dirs, |LoadSpec(stream).dirs|)
    {
      var r := Load(stream);
      if !r.Loaded? {
        return false;
      }
      LoadedClosed(stream);
      if r.order == Little {
        archives := archives[a := archives[a].(order := Little)];
      }
      var ds := r.dirs;
      var base := |folders|;
      CreateDirs(a, |ds|);
      ghost var f1 := folders;
      assert f1[..base] == old(folders);
      ValidFilesIn();
      LoadStart(files, folders, archives, a, base, ds);
      LoadDirs(a, base, ds);
      PrefixBySlice(old(folders), folders);
      ok := true;
    }

    /**
      `File::MountAsArchive`: a new archive loaded from the file's bytes.
      The file records it as mounted when the bytes load, and records no
      mounted archive otherwise.
    */
    method MountAsArchive(f: nat) returns (ok: bool)
      requires Valid() && f < |files|
      modifies this
      ensures Valid()
      ensures ok <==> LoadSpec(old(files)[f].data).Loaded?
      ensures FilesGrow(old(files), files) && old(folders) <= folders && old(archives) <= archives
      ensures |old(archives)| < |archives| && files[f].mounted == if ok then Some(|old(archives)|) else None
      ensures !ok ==> folders == old(folders)
      ensures ok ==> FilesIn(files, folders) &&
                     archives[|old(archives)|].dirs == Range(|old(folders)|, |LoadSpec(old(files)[f].data).dirs|) &&
                     Placed(View(files, folders), |old(folders)|, LoadSpec(old(files)[f].data).dirs)
    {
      var a := NewArchive();
      ok := LoadInto(a, files[f].data);
      ghost var loaded := files;
      files := files[f := files[f].(mounted := if ok then Some(a) else None)];
      assert FileLinks(files[f], |archives|);
      assert forall i :: 0 <= i < |folders| ==> FolderLinks(folders[i], |archives|, |folders|, |files|);
      if ok {
        ghost var ds := LoadSpec(old(files)[f].data).dirs;
        LoadPlaced(loaded, folders, archives, a, |old(folders)|, ds);
        ValidFilesIn();
        ViewGrows(loaded, folders, files, folders);
      }
    }

    // -------------------------------------------------------------------
    // Path lookup
    // -------------------------------------------------------------------

    /** `Folder::GetFolder` (see `FindFolder`). */
    method GetFolder(d: nat, path: Path) returns (r: Option<nat>)
      requires Valid() && d < |folders|
      ensures FilesIn(files, folders) && r == FindFolder(View(files, folders), d, path)
      decreases |path|
    {
      ValidFilesIn();
      ghost var v := View(files, folders);
      if path == [] {
        return None;
      }
      var subs := folders[d].subs;
      var k := 0;
      while k < |subs|
        invariant k <= |subs|
        invariant FirstMatch(v, subs, path[0]) == FirstMatch(v, subs[k..], path[0])
      {
        if folders[subs[k]].name == path[0] {
          assert subs[k..][0] == subs[k];
          if |path| == 1 {
            return Some(subs[k]);
          }
          r := GetFolder(subs[k], path[1..]);
          return;
        }
        assert subs[k..][1..] == subs[k + 1..];
        k := k + 1;
      }
      return None;
    }

    /** `Rarc::GetFolder`: the lookup from the root, without a leading "/". */
    method RarcGetFolder(a: nat, path: Path) returns (r: Option<nat>)
      requires Valid() && a < |archives|
      ensures FilesIn(files, folders) && r == ArchiveFolder(View(files, folders), archives[a].dirs, path)
    {
      ValidFilesIn();
      if archives[a].dirs == [] {
        return None;
      }
      assert ArchiveLinks(archives[a], |folders|);
      var p := path;
      if path != [] && path[0] == SLASH {
        p := path[1..];
      }
      r := GetFolder(archives[a].dirs[0], p);
    }

    /**
      `Folder::GetFile` (see `FindFile`): the result, seen through its name
      and bytes, is what the lookup specifies on the objects as they were
      before the call.  Mounting on the way only adds objects and sets
      `mounted` fields.
    */
    method GetFile(d: nat, path: Path) returns (r: Option<nat>)
      requires Valid() && d < |folders|
      modifies this
      decreases |path|, 2
      ensures Valid()
      ensures FilesGrow(old(files), files) && old(folders) <= folders && old(archives) <= archives
      ensures old(FilesIn(files, folders)) && (r.Some? ==> r.value < |files|)
      ensures FileOf(files, r) == FindFile(old(View(files, folders)), d, path)
    {
      ValidFilesIn();
      if path == [] {
        return None;
      }
      var found;
      found, r := FileLoop(d, path);
      if found {
        return;
      }
      ghost var g1, d1, a1 := files, folders, archives;
      ValidFilesIn();
      ViewGrows(old(files), old(folders), files, folders);
      ClosedView(old(files), old(folders));
      GrownFind(old(View(files, folders)), View(files, folders), d, path);
      r := SubLoop(d, path);
      FilesGrowTrans(old(files), g1, files);
      PrefixTrans(old(folders), d1, folders);
      PrefixTrans(old(archives), a1, archives);
    }

    /** The file loop of `Folder::GetFile`; `found` when it returned (see `FileHit`). */
    method FileLoop(d: nat, path: Path) returns (found: bool, r: Option<nat>)
      requires Valid() && d < |folders| && path != []
      modifies this
      decreases |path|, 1
      ensures Valid()
      ensures FilesGrow(old(files), files) && old(folders) <= folders && old(archives) <= archives
      ensures old(FilesIn(files, folders)) && (r.Some? ==> r.value < |files|)
      ensures found <==> FileHit(old(View(files, folders))[d].files, 0, path).Some?
      ensures found ==> FileOf(files, r) == FileHit(old(View(files, folders))[d].files, 0, path).value
    {
      ValidFilesIn();
      ghost var vfs := View(files, folders)[d].files;
      var n := |folders[d].files|;
      found, r := false, None;
      var k := 0;
      while k < n && !found
        invariant Valid() && k <= n
        invariant FilesGrow(old(files), files) && old(folders) <= folders && old(archives) <= archives
        invariant r.Some? ==> r.value < |files|
        invariant !found ==> FileHit(vfs, 0, path) == FileHit(vfs, k, path)
        invariant found ==> FileHit(vfs, 0, path).Some? && FileOf(files, r) == FileHit(vfs, 0, path).value
      {
        found, r := FileStep(old(files), old(folders), old(archives), d, path, k);
        k := k + 1;
      }
    }

    /** One file of the `GetFile` loop: a hit returns, a miss moves on. */
    method FileStep(ghost g0: seq<FileRec>, ghost f0: seq<FolderRec>, ghost a0: seq<ArchiveRec>,
                    d: nat, path: Path, k: nat) returns (found: bool, r: Option<nat>)
      requires Valid() && FilesIn(g0, f0) && d < |f0| && path != [] && k < |f0[d].files|
      requires FilesGrow(g0, files) && f0 <= folders && a0 <= archives
      modifies this
      decreases |path|, 0
      ensures Valid()
      ensures FilesGrow(g0, files) && f0 <= folders && a0 <= archives
      ensures r.Some? ==> r.value < |files|
      ensures !found ==> FileHit(View(g0, f0)[d].files, k, path) == FileHit(View(g0, f0)[d].files, k + 1, path)
      ensures found ==> FileHit(View(g0, f0)[d].files, k, path).Some? &&
                        FileOf(files, r) == FileHit(View(g0, f0)[d].files, k, path).value
    {
      ghost var vfs := View(g0, f0)[d].files;
      found, r := false, None;
      var f := folders[d].files[k];
      assert f0[d].files[k] == f;
      assert vfs[k] == FileViewOf(g0[f]) == FileViewOf(files[f]);
      if files[f].name == path[0] {
        if |path| == 1 {
          return true, Some(f);
        }
        ghost var base := |folders|;
        ghost var g1, d1, a1 := files, folders, archives;
        var ok := MountAsArchive(f);
        FilesGrowTrans(g0, g1, files);
        PrefixTrans(f0, d1, folders);
        PrefixTrans(a0, a1, archives);
        if ok {
          ghost var ds := LoadSpec(g1[f].data).dirs;
          LoadedClosed(g1[f].data);
          ghost var mid := View(files, folders);
          ghost var g2, d2, a2 := files, folders, archives;
          r := RarcGetFile(files[f].mounted.value, path[1..]);
          PlacedArchiveFile(mid, base, ds, path[1..]);
          FilesGrowTrans(g0, g2, files);
          PrefixTrans(f0, d2, folders);
          PrefixTrans(a0, a2, archives);
          found := true;
        }
      }
    }

    /** The subfolder loop of `Folder::GetFile`, reached when the file loop did not return. */
    method SubLoop(d: nat, path: Path) returns (r: Option<nat>)
      requires Valid() && d < |folders| && path != []
      requires FilesIn(files, folders) && FileHit(View(files, folders)[d].files, 0, path).None?
      modifies this
      decreases |path|, 1
      ensures Valid()
      ensures FilesGrow(old(files), files) && old(folders) <= folders && old(archives) <= archives
      ensures r.Some? ==> r.value < |files|
      ensures FileOf(files, r) == FindFile(old(View(files, folders)), d, path)
    {
      ghost var v0 := View(files, folders);
      var subs := folders[d].subs;
      assert subs == v0[d].subdirs;
      r := None;
      var j := 0;
      while j < |subs|
        invariant Valid() && j <= |subs|
        invariant FilesGrow(old(files), files) && old(folders) <= folders && old(archives) <= archives
        invariant r.Some? ==> r.value < |files|
        invariant FileOf(files, r) == match LastMatch(v0, subs[..j], path[0])
                                      case None => None
                                      case Some(s) => FindFile(v0, s, path[1..])
      {
        assert subs[..j + 1][..j] == subs[..j];
        r := SubStep(old(files), old(folders), old(archives), path, subs, j, r);
        j := j + 1;
      }
      assert subs[..j] == subs;
    }

    /** One subfolder of the `GetFile` scan: descend when its name matches. */
    method SubStep(ghost g0: seq<FileRec>, ghost f0: seq<FolderRec>, ghost a0: seq<ArchiveRec>,
                   path: Path, subs: seq<nat>, j: nat, r0: Option<nat>) returns (r: Option<nat>)
      requires Valid() && path != [] && j < |subs|
      requires FilesIn(g0, f0) && Closed(f0) && forall k :: 0 <= k < |subs| ==> subs[k] < |f0|
      requires FilesGrow(g0, files) && f0 <= folders && a0 <= archives
      requires r0.Some? ==> r0.value < |files|
      requires FileOf(files, r0) == match LastMatch(View(g0, f0), subs[..j], path[0])
                                    case None => None
                                    case Some(s) => FindFile(View(g0, f0), s, path[1..])
      modifies this
      decreases |path|, 0
      ensures Valid()
      ensures FilesGrow(g0, files) && f0 <= folders && a0 <= archives
      ensures r.Some? ==> r.value < |files|
      ensures FileOf(files, r) == match LastMatch(View(g0, f0), subs[..j + 1], path[0])
                                  case None => None
                                  case Some(s) => FindFile(View(g0, f0), s, path[1..])
    {
      ghost var v0 := View(g0, f0);
      r := r0;
      assert subs[..j + 1][..j] == subs[..j];
      assert folders[subs[j]] == f0[subs[j]];
      if folders[subs[j]].name == path[0] {
        ValidFilesIn();
        ViewGrows(g0, f0, files, folders);
        ClosedView(g0, f0);
        GrownFind(v0, View(files, folders), subs[j], path[1..]);
        ghost var g1, d1, a1 := files, folders, archives;
        r := GetFile(subs[j], path[1..]);
        FilesGrowTrans(g0, g1, files);
        PrefixTrans(f0, d1, folders);
        PrefixTrans(a0, a1, archives);
      }
    }

    /** `Rarc::GetFile`: the lookup from the root, without a leading "/". */
    method RarcGetFile(a: nat, path: Path) returns (r: Option<nat>)
      requires Valid() && a < |archives|
      modifies this
      decreases |path|, 3
      ensures Valid()
      ensures FilesGrow(old(files), files) && old(folders) <= folders && old(archives) <= archives
      ensures old(FilesIn(files, folders)) && (r.Some? ==> r.value < |files|)
      ensures FileOf(files, r) == ArchiveFile(old(View(files, folders)), old(archives)[a].dirs, path)
    {
      ValidFilesIn();
      if archives[a].dirs == [] {
        return None;
      }
      assert ArchiveLinks(archives[a], |folders|);
      var p := path;
      if path != [] && path[0] == SLASH {
        p := path[1..];
      }
      r := GetFile(archives[a].dirs[0], p);
    }

    // -------------------------------------------------------------------
    // The root
    // -------------------------------------------------------------------

    /** `Rarc::GetRoot`: the first directory, where every lookup of the archive starts. */
    method GetRoot(a: nat) returns (d: nat)
      requires a < |archives| && |archives[a].dirs| > 0
      ensures d == archives[a].dirs[0]
      ensures FilesIn(files, folders) ==> forall p :: ArchiveFolder(View(files, folders), archives[a].dirs, p) == FindFolder(View(files, folders), d, Relative(p))
    {
      d := archives[a].dirs[0];
    }

    /**
      `Rarc::SetRoot`: `folder` goes first in the directory list, and a root
      that existed is attached below it through `AddSubdirectory` (itself
      when it belongs to `folder`'s archive, a copy of its tree otherwise).
      When the old root belongs to another archive, `rank` witnesses that the
      folders its copy descends through form no cycle (see `Ranked`).
      Besides `folder` and the archives' lists, nothing that existed changes
      but folders' parents, and folders of other archives keep theirs.
    */
    method SetRoot(a: nat, folder: nat, ghost rank: map<nat, nat>)
      requires Valid() && a < |archives| && folder < |folders|
      requires archives[a].dirs != [] && folders[archives[a].dirs[0]].owner != folders[folder].owner ==>
                 archives[a].dirs[0] in rank && Ranked(folders, folders[folder].owner, |folders|, rank)
      modifies this
      ensures Valid()
      ensures |archives| == |old(archives)| && archives[a].order == old(archives)[a].order
      ensures |archives[a].dirs| > 0 && archives[a].dirs[0] == folder
      ensures old(archives)[a].dirs <= archives[a].dirs[1..]
      ensures old(archives)[a].dirs == [] ==>
                folders == old(folders) && files == old(files) && archives == old(archives)[a := old(archives)[a].(dirs := [folder])]
      ensures old(archives)[a].dirs != [] ==>
                var root := old(archives)[a].dirs[0];
                && |folders[folder].subs| > 0
                && Same(old(folders)[folder].(subs := old(folders)[folder].subs + [LastSub(folder)]), folders[folder])
                && folders[LastSub(folder)].parent == Some(folder)
                && (old(folders)[root].owner == old(folders)[folder].owner ==>
                      && LastSub(folder) == root
                      && var f1 := old(folders)[root := old(folders)[root].(parent := Some(folder))];
                         folders == f1[folder := f1[folder].(subs := f1[folder].subs + [root])])
                && Registered(|old(folders)|, |folders|, archives[old(folders)[folder].owner].dirs)
                && (old(folders)[root].owner != old(folders)[folder].owner ==>
                      forall n: nat :: Shape(folders[folder := old(folders)[folder]], LastSub(folder), n) == Shape(old(folders), root, n))
                && (old(folders)[root].owner == a && old(folders)[folder].owner == a ==>
                      archives[a].dirs == [folder] + old(archives)[a].dirs)
      ensures files == old(files)
      ensures KeepsBut(old(folders), folders, folder) && OutsideKept(old(folders), folders, old(folders)[folder].owner)
      ensures forall b :: 0 <= b < |archives| && b != a ==>
                && archives[b].order == old(archives)[b].order && old(archives)[b].dirs <= archives[b].dirs
                && (b != old(folders)[folder].owner ==> archives[b] == old(archives)[b])
    {
      if archives[a].dirs != [] {
        ClosedLayered(folders);
        var root := archives[a].dirs[0];
        AddSubdirectory(folder, root, |folders|, rank);
        assert old(archives)[a].dirs <= archives[a].dirs;
      } else {
        assert [folder] + archives[a].dirs == [folder];
      }
      archives := archives[a := archives[a].(dirs := [folder] + archives[a].dirs)];
      assert ArchiveLinks(archives[a], |folders|);
      assert archives[a].dirs[1..] == old(archives)[a].dirs || old(archives)[a].dirs <= archives[a].dirs[1..];
    }
  }
}
