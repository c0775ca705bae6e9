/**
  The objects of a GameCube disc image in memory (include/GCM.hpp,
  src/GCM.cpp): `File`, `Folder` and `Image`, linked by shared pointers in
  the source, live here in one arena and are named by position.

  A folder record is `RarcObjects.FolderRec`: its `owner` is the image the
  folder was created for (`mDisk`).  The folder IDs that only `Load` uses
  (`mID`, `mParentID`) sit in the parallel list `tags`; an image is its
  root folder (`mRoot`), if it has one.  Disc files are never mounted, so
  every file record here has `mounted == None`.
*/
module GcmTree {
  import opened Util
  import opened Bytes
  import opened RarcObjects
  import opened RarcPaths
  import RarcFormat
  import RarcLoad
  import opened GcmFst
  import opened GcmFstLoad
  import opened GcmDisc

  /** `mID` and `mParentID` of a folder; both start at 0. */
  datatype Tag = Tag(id: nat, parentId: nat)

  // ---------------------------------------------------------------------
  // Folder::GetFile on a disc
  // ---------------------------------------------------------------------

  /**
    `Folder::GetFile` of src/GCM.cpp: a one-component path names the first
    file of the folder so called; otherwise the lookup goes on in the last
    subfolder named like the first component (each match overwrites the
    result), even when that gives nothing.  Nothing is mounted on the way.
  */
  function FindDiscFile(v: seq<RarcLoad.LoadedDir>, d: nat, path: Path): Option<RarcFormat.FileView>
    decreases |path|
  {
    if path == [] || d >= |v| then None
    else if |path| == 1 && FirstFile(v[d].files, path[0]).Some? then FirstFile(v[d].files, path[0])
    else
      match LastMatch(v, v[d].subdirs, path[0])
      case None => None
      case Some(s) => FindDiscFile(v, s, path[1..])
  }

  /** The folder a walk through last-matching subfolders reaches, as `GetFile` walks towards a file. */
  function LastFolder(v: seq<RarcLoad.LoadedDir>, d: nat, path: Path): (r: Option<nat>)
    ensures r.Some? ==> r.value < |v|
    decreases |path|
  {
    if path == [] then (if d < |v| then Some(d) else None)
    else if d >= |v| then None
    else
      match LastMatch(v, v[d].subdirs, path[0])
      case None => None
      case Some(s) => LastFolder(v, s, path[1..])
  }

  /** A file found carries the path's last component as its name and is one of the files of some folder. */
  lemma {:induction false} FindDiscFileNamed(v: seq<RarcLoad.LoadedDir>, d: nat, path: Path)
    ensures FindDiscFile(v, d, path).Some? ==> FindDiscFile(v, d, path).value.name == path[|path| - 1]
    decreases |path|
  {
    if path != [] && d < |v| && !(|path| == 1 && FirstFile(v[d].files, path[0]).Some?) {
      var m := LastMatch(v, v[d].subdirs, path[0]);
      if m.Some? {
        FindDiscFileNamed(v, m.value, path[1..]);
        if |path| > 1 {
          assert path[1..][|path| - 2] == path[|path| - 1];
        }
      }
    }
  }

  /** A one-component path gives the first file of that name, or nothing. */
  lemma FindDiscFileSingle(v: seq<RarcLoad.LoadedDir>, d: nat, name: Name)
    requires d < |v|
    ensures FindDiscFile(v, d, [name]) == FirstFile(v[d].files, name)
  {
    if FirstFile(v[d].files, name).None? {
      var m := LastMatch(v, v[d].subdirs, name);
      if m.Some? {
        assert [name][1..] == [];
      }
    }
  }

  /**
    A file below the top level is looked for only in the folder that the
    walk through last-matching subfolders reaches: files of the folders on
    the way are never considered, and neither is an earlier subfolder of
    the same name.
  */
  lemma {:induction false} FindDiscFileCompose(v: seq<RarcLoad.LoadedDir>, d: nat, p: Path, name: Name)
    ensures FindDiscFile(v, d, p + [name]) ==
              match LastFolder(v, d, p)
              case None => None
              case Some(e) => FirstFile(v[e].files, name)
    decreases |p|
  {
    if p == [] {
      assert p + [name] == [name];
      if d < |v| {
        FindDiscFileSingle(v, d, name);
      }
    } else if d < |v| {
      assert (p + [name])[0] == p[0];
      assert (p + [name])[1..] == p[1..] + [name];
      var m := LastMatch(v, v[d].subdirs, p[0]);
      if m.Some? {
        FindDiscFileCompose(v, m.value, p[1..], name);
      }
    }
  }

  // ---------------------------------------------------------------------
  // The folder links Image::Load makes
  // ---------------------------------------------------------------------

  /** The first folder from `i` on whose ID is `id` (the inner loop of src/GCM.cpp:333-340, which breaks at it). */
  function FirstWithId(ls: seq<Loaded>, id: nat, i: nat): (r: Option<nat>)
    requires i <= |ls|
    ensures r.Some? ==> i <= r.value < |ls| && ls[r.value].id == id
    ensures forall k :: i <= k < |ls| && (r.None? || k < r.value) ==> ls[k].id != id
    decreases |ls| - i
  {
    if i == |ls| then None
    else if ls[i].id == id then Some(i)
    else FirstWithId(ls, id, i + 1)
  }

  /** The folder `Load` attaches folder `k` to: none for ID 0, else the first whose ID is `k`'s parent ID. */
  function ParentOf(ls: seq<Loaded>, k: nat): Option<nat>
    requires k < |ls|
  {
    if ls[k].id == 0 then None else FirstWithId(ls, ls[k].parentId, 0)
  }

  /** The folders among the first `n` that `Load` attaches to folder `j`, in the order it attaches them. */
  function Children(ls: seq<Loaded>, j: nat, n: nat): (r: seq<nat>)
    requires n <= |ls|
    ensures forall q :: 0 <= q < |r| ==> r[q] < n
  {
    if n == 0 then []
    else Children(ls, j, n - 1) + (if ParentOf(ls, n - 1) == Some(j) then [n - 1] else [])
  }

  /** Folder `x` is listed under `j` exactly when `j` is its parent, and the list is in increasing order. */
  lemma {:induction false} ChildrenSpec(ls: seq<Loaded>, j: nat, n: nat, x: nat)
    requires n <= |ls|
    ensures x in Children(ls, j, n) <==> x < n && ParentOf(ls, x) == Some(j)
    ensures forall p, q :: 0 <= p < q < |Children(ls, j, n)| ==> Children(ls, j, n)[p] < Children(ls, j, n)[q]
  {
    if n > 0 {
      ChildrenSpec(ls, j, n - 1, x);
      var c := Children(ls, j, n - 1);
      var r := Children(ls, j, n);
      assert r == c + (if ParentOf(ls, n - 1) == Some(j) then [n - 1] else []);
      assert x in r <==> x in c || (x == n - 1 && ParentOf(ls, n - 1) == Some(j));
    }
  }

  /** A folder is attached under one parent at most: no folder is listed under two. */
  lemma ChildOfOne(ls: seq<Loaded>, j1: nat, j2: nat, x: nat)
    requires |ls| > 0 && x in Children(ls, j1, |ls|) && x in Children(ls, j2, |ls|)
    ensures j1 == j2
  {
    ChildrenSpec(ls, j1, |ls|, x);
    ChildrenSpec(ls, j2, |ls|, x);
  }

  /** The bytes of loaded files, seen as names and contents. */
  function Views(fs: seq<FileNode>): (r: seq<RarcFormat.FileView>)
    ensures |r| == |fs| && forall k :: 0 <= k < |fs| ==> r[k] == RarcFormat.FileView(fs[k].name, fs[k].data)
  {
    seq(|fs|, k requires 0 <= k < |fs| => RarcFormat.FileView(fs[k].name, fs[k].data))
  }

  /** Folders of images other than `img` keep their parents: only `img`'s folders are moved. */
  predicate OthersKept(fs: seq<FolderRec>, gs: seq<FolderRec>, img: nat) {
    |fs| <= |gs| && forall i :: 0 <= i < |fs| && fs[i].owner != img ==> gs[i].parent == fs[i].parent
  }

  lemma OthersKeptTrans(fs: seq<FolderRec>, gs: seq<FolderRec>, hs: seq<FolderRec>, img: nat, c: nat)
    requires OthersKept(fs, gs, img) && OthersKept(gs, hs, img) && KeepsBut(fs, gs, c)
    requires c < |fs| ==> fs[c].owner == img
    ensures OthersKept(fs, hs, img)
  {
    forall i | 0 <= i < |fs| && fs[i].owner != img
      ensures hs[i].parent == fs[i].parent
    {
      assert Same(fs[i], gs[i]);
    }
  }

  /**
    The shape step of `Copy`: `f1` is the arena with the fresh folder `c`,
    `f2` the arena after its subfolders were attached and `f3` the arena after
    its files were shared.  Folders outside the copy keep their shapes, so the
    copy has the shape of `src`.
  */
  lemma CopyShape(f0: seq<FolderRec>, f1: seq<FolderRec>, f2: seq<FolderRec>, f3: seq<FolderRec>, lo: nat, c: nat, src: nat)
    requires c == |f0| && src < c && lo <= c && c < |f2|
    requires Closed(f0) && Closed(f2) && Layered(f1, lo) && Layered(f2, lo) && Layered(f3, lo)
    requires KeepsBut(f0, f1, c) && KeepsBut(f2, f3, c)
    requires |f2[c].subs| == |f1[src].subs|
    requires forall j, n: nat :: 0 <= j < |f2[c].subs| ==> Shape(f2, f2[c].subs[j], n) == Shape(f1, f1[src].subs[j], n)
    requires f3[c] == f2[c].(files := f0[src].files) && f2[c].name == f0[src].name
    ensures forall n: nat :: Shape(f3, c, n) == Shape(f0, src, n)
  {
    assert Same(f0[src], f1[src]);
    forall j, n: nat | 0 <= j < |f3[c].subs|
      ensures Shape(f3, f3[c].subs[j], n) == Shape(f0, f0[src].subs[j], n)
    {
      ShapeFrame(f2, f3, lo, c, f2[c].subs[j], n);
      ShapeFrame(f0, f1, lo, c, f1[src].subs[j], n);
    }
    CopyDone(f0, f3, c, src);
  }

  /** Positions in `ids` of files that did not change keep their contents when more files are created. */
  lemma FileViewsGrow(fs: seq<FileRec>, gs: seq<FileRec>, ids: seq<nat>)
    requires fs <= gs && forall k :: 0 <= k < |ids| ==> ids[k] < |fs|
    ensures FileViews(gs, ids) == FileViews(fs, ids)
  {
    assert forall k :: 0 <= k < |ids| ==> gs[ids[k]] == fs[ids[k]];
  }

  lemma ShiftAppend(s: seq<nat>, x: nat, base: nat)
    ensures Shift(s + [x], base) == Shift(s, base) + [x + base]
  {
    assert |Shift(s + [x], base)| == |Shift(s, base) + [x + base]|;
    forall k | 0 <= k < |s| + 1
      ensures Shift(s + [x], base)[k] == (Shift(s, base) + [x + base])[k]
    {
      if k < |s| {
        assert (s + [x])[k] == s[k];
      }
    }
  }

  /** Loaded folder `x` sits at `lb + x` with its name, its files' contents, its image and its ID pair. */
  ghost predicate Made(files: seq<FileRec>, folders: seq<FolderRec>, tags: seq<Tag>, img: nat, lb: nat, ls: seq<Loaded>, x: nat) {
    && lb + x < |folders| && |tags| == |folders| && x < |ls| && FilesIn(files, folders)
    && folders[lb + x].owner == img && folders[lb + x].name == ls[x].name
    && FileViews(files, folders[lb + x].files) == Views(ls[x].files)
    && tags[lb + x] == Tag(ls[x].id, ls[x].parentId)
  }

  /** Folder `lb + x` is not yet linked: no subfolders and no parent. */
  ghost predicate Unlinked(folders: seq<FolderRec>, lb: nat, x: nat) {
    lb + x < |folders| && folders[lb + x].subs == [] && folders[lb + x].parent == None
  }

  /**
    Folder `lb + k` lists the folders attached to it (see `Children`) and
    points to its `ParentOf`; the first folder points to `top` instead.
  */
  ghost predicate LinkedTo(folders: seq<FolderRec>, lb: nat, ls: seq<Loaded>, k: nat, top: Option<nat>) {
    && lb + k < |folders| && k < |ls|
    && folders[lb + k].subs == Shift(Children(ls, k, |ls|), lb)
    && folders[lb + k].parent == if k == 0 then top else Lift(ParentOf(ls, k), lb)
  }

  /** Folder `lb + x` carries the ID pair of `ls[x]`. */
  ghost predicate Tagged(tags: seq<Tag>, lb: nat, ls: seq<Loaded>, x: nat) {
    lb + x < |tags| && x < |ls| && tags[lb + x] == Tag(ls[x].id, ls[x].parentId)
  }

  /**
    The link loop of `Load` after `k` folders: each folder before `k` is
    attached to its `ParentOf`, and every folder lists, in order, the
    folders before `k` attached to it.  Nothing else differs from `f0`.
  */
  ghost predicate Linking(f0: seq<FolderRec>, fs: seq<FolderRec>, lb: nat, ls: seq<Loaded>, k: nat) {
    && |fs| == |f0| == lb + |ls| && k <= |ls| && fs[..lb] == f0[..lb]
    && forall x :: 0 <= x < |ls| ==>
         fs[lb + x] == f0[lb + x].(subs := Shift(Children(ls, x, k), lb),
                                   parent := Lift(if x < k then ParentOf(ls, x) else None, lb))
  }

  /** Folders `Load` has made but not yet linked are tagged, and are where the link loop starts. */
  lemma StartLinking(files: seq<FileRec>, folders: seq<FolderRec>, tags: seq<Tag>, img: nat, lb: nat, ls: seq<Loaded>)
    requires lb + |ls| == |folders|
    requires forall x :: 0 <= x < |ls| ==> Made(files, folders, tags, img, lb, ls, x) && Unlinked(folders, lb, x)
    ensures forall x :: 0 <= x < |ls| ==> Tagged(tags, lb, ls, x)
    ensures Linking(folders, folders, lb, ls, 0)
  {
    forall x | 0 <= x < |ls|
      ensures Tagged(tags, lb, ls, x)
      ensures folders[lb + x] == folders[lb + x].(subs := Shift(Children(ls, x, 0), lb), parent := Lift(None, lb))
    {
      assert Made(files, folders, tags, img, lb, ls, x) && Unlinked(folders, lb, x);
      assert Children(ls, x, 0) == [];
    }
  }

  /** After the link loop, a made folder is still made (linking touches only subfolders and parents) and is linked. */
  lemma LinkedMade(files: seq<FileRec>, f0: seq<FolderRec>, fs: seq<FolderRec>, tags: seq<Tag>, img: nat, lb: nat,
                   ls: seq<Loaded>, x: nat)
    requires Linking(f0, fs, lb, ls, |ls|) && Made(files, f0, tags, img, lb, ls, x) && FilesIn(files, fs)
    requires ls[0].id == 0
    ensures Made(files, fs, tags, img, lb, ls, x) && LinkedTo(fs, lb, ls, x, None)
  {
    assert fs[lb + x] == f0[lb + x].(subs := Shift(Children(ls, x, |ls|), lb), parent := Lift(ParentOf(ls, x), lb));
  }

  /** One pass of the link loop: folder `k` attached to its parent, if it has one. */
  lemma LinkStep(f0: seq<FolderRec>, fs: seq<FolderRec>, gs: seq<FolderRec>, lb: nat, ls: seq<Loaded>, k: nat)
    requires Linking(f0, fs, lb, ls, k) && k < |ls|
    requires ParentOf(ls, k).None? ==> gs == fs
    requires ParentOf(ls, k).Some? ==>
               var d := lb + ParentOf(ls, k).value;
               var f1 := fs[lb + k := fs[lb + k].(parent := Some(d))];
               gs == f1[d := f1[d].(subs := f1[d].subs + [lb + k])]
    ensures Linking(f0, gs, lb, ls, k + 1)
  {
    assert gs[..lb] == fs[..lb];
    forall x | 0 <= x < |ls|
      ensures gs[lb + x] == f0[lb + x].(subs := Shift(Children(ls, x, k + 1), lb),
                                        parent := Lift(if x < k + 1 then ParentOf(ls, x) else None, lb))
    {
      if ParentOf(ls, k) == Some(x) {
        ShiftAppend(Children(ls, x, k), k, lb);
      }
    }
  }

  /** `Load`'s result in the arena: the root at `base`, `sys` after it, and the folders read from `base + 2` on, `files` first. */
  ghost predicate LoadedImage(files: seq<FileRec>, folders: seq<FolderRec>, tags: seq<Tag>, img: nat, base: nat,
                              ls: seq<Loaded>, sys: seq<FileNode>) {
    && FilesIn(files, folders) && |folders| == base + 2 + |ls| && |tags| == |folders|
    && folders[base] == FolderRec(img, None, ROOT_NAME, [base + 1, base + 2], []) && tags[base] == Tag(0, 0)
    && folders[base + 1] == FolderRec(img, Some(base), SYS_NAME, [], folders[base + 1].files) && tags[base + 1] == Tag(0, 0)
    && FileViews(files, folders[base + 1].files) == Views(sys)
    && forall k :: 0 <= k < |ls| ==> LoadedAt(files, folders, tags, img, base, ls, k)
  }

  /**
    In `Load`'s result, loaded folder `y` is a subfolder of loaded folder
    `x` exactly when `x` is its `ParentOf`, and then `y` points back to `x`
    (the first loaded folder, "files", points to the root instead).
  */
  lemma LoadedSubs(files: seq<FileRec>, folders: seq<FolderRec>, tags: seq<Tag>, img: nat, base: nat,
                   ls: seq<Loaded>, sys: seq<FileNode>, x: nat, y: nat)
    requires LoadedImage(files, folders, tags, img, base, ls, sys) && x < |ls| && y < |ls|
    ensures base + 2 + y in folders[base + 2 + x].subs <==> ParentOf(ls, y) == Some(x)
    ensures 0 < y && ParentOf(ls, y) == Some(x) ==> folders[base + 2 + y].parent == Some(base + 2 + x)
  {
    assert LoadedAt(files, folders, tags, img, base, ls, x) && LoadedAt(files, folders, tags, img, base, ls, y);
    LinkedSubs(folders, base + 2, ls, x, y, Some(base));
  }

  /** Among linked folders, `lb + y` is a subfolder of `lb + x` exactly when `ls[y]` lies directly below `ls[x]`. */
  lemma LinkedSubs(folders: seq<FolderRec>, lb: nat, ls: seq<Loaded>, x: nat, y: nat, top: Option<nat>)
    requires LinkedTo(folders, lb, ls, x, top) && LinkedTo(folders, lb, ls, y, top)
    ensures lb + y in folders[lb + x].subs <==> ParentOf(ls, y) == Some(x)
    ensures 0 < y && ParentOf(ls, y) == Some(x) ==> folders[lb + y].parent == Some(lb + x)
  {
    var c := Children(ls, x, |ls|);
    ChildrenSpec(ls, x, |ls|, y);
    if y in c {
      var q :| 0 <= q < |c| && c[q] == y;
      assert Shift(c, lb)[q] == lb + y;
    }
    if lb + y in Shift(c, lb) {
      var q :| 0 <= q < |c| && Shift(c, lb)[q] == lb + y;
      assert c[q] == y;
    }
  }

  /** Loaded folder `k` in `Load`'s result: made from `ls[k]` and linked, the first one under the root `base`. */
  ghost predicate LoadedAt(files: seq<FileRec>, folders: seq<FolderRec>, tags: seq<Tag>, img: nat, base: nat, ls: seq<Loaded>, k: nat) {
    Made(files, folders, tags, img, base + 2, ls, k) && LinkedTo(folders, base + 2, ls, k, Some(base))
  }

  class Disc {
    var files: seq<FileRec>
    var folders: seq<FolderRec>
    var tags: seq<Tag>
    var roots: seq<Option<nat>>

    /** Every link names an object of the arena, and every folder has its ID pair. */
    ghost predicate Valid()
      reads this
    {
      && Closed(folders)
      && |tags| == |folders|
      && (forall i :: 0 <= i < |folders| ==> FolderLinks(folders[i], |roots|, |folders|, |files|))
      && (forall i :: 0 <= i < |roots| ==> roots[i].Some? ==> roots[i].value < |folders|)
    }

    /** The last subfolder of `d`: the one `AddSubdirectory` has just attached. */
    function LastSub(d: nat): nat
      reads this
      requires d < |folders| && |folders[d].subs| > 0
    {
      folders[d].subs[|folders[d].subs| - 1]
    }

    constructor()
      ensures Valid()
      ensures files == [] && folders == [] && tags == [] && roots == []
    {
      files, folders, tags, roots := [], [], [], [];
    }

    lemma ValidFilesIn()
      requires Valid()
      ensures FilesIn(files, folders)
    {
      forall i, k | 0 <= i < |folders| && 0 <= k < |folders[i].files|
        ensures folders[i].files[k] < |files|
      {
        assert FolderLinks(folders[i], |roots|, |folders|, |files|);
      }
    }

    // -------------------------------------------------------------------
    // Creating objects and setting their fields
    // -------------------------------------------------------------------

    /** `Image::Create`: an image with no root folder. */
    method NewImage() returns (img: nat)
      requires Valid()
      modifies this
      ensures Valid()
      ensures img == |old(roots)| && roots == old(roots) + [None]
      ensures files == old(files) && folders == old(folders) && tags == old(tags)
    {
      img := |roots|;
      roots := roots + [None];
      assert forall i :: 0 <= i < |folders| ==> FolderLinks(folders[i], |old(roots)|, |folders|, |files|);
    }

    /** `File::Create`: no name and no data. */
    method NewFile() returns (f: nat)
      requires Valid()
      modifies this
      ensures Valid()
      ensures f == |old(files)| && files == old(files) + [FileRec([], [], None)]
      ensures folders == old(folders) && tags == old(tags) && roots == old(roots)
    {
      f := |files|;
      files := files + [FileRec([], [], None)];
      assert forall i :: 0 <= i < |folders| ==> FolderLinks(folders[i], |roots|, |folders|, |old(files)|);
    }

    /** `File::SetData`: the file now holds a copy of `data`, and its size is `|data|`. */
    method SetData(f: nat, data: Data)
      requires Valid() && f < |files|
      modifies this
      ensures Valid()
      ensures files == old(files)[f := old(files)[f].(data := data)]
      ensures folders == old(folders) && tags == old(tags) && roots == old(roots)
    {
      files := files[f := files[f].(data := data)];
    }

    /** `File::SetName`. */
    method SetFileName(f: nat, name: Name)
      requires Valid() && f < |files|
      modifies this
      ensures Valid()
      ensures files == old(files)[f := old(files)[f].(name := name)]
      ensures folders == old(folders) && tags == old(tags) && roots == old(roots)
    {
      files := files[f := files[f].(name := name)];
    }

    /** `Folder::Create(disk)`: an empty folder of image `img` with no parent, ID 0 and parent ID 0. */
    method NewFolder(img: nat) returns (d: nat)
      requires Valid() && img < |roots|
      modifies this
      ensures Valid()
      ensures d == |old(folders)| && folders == old(folders) + [FolderRec(img, None, [], [], [])]
      ensures tags == old(tags) + [Tag(0, 0)]
      ensures files == old(files) && roots == old(roots)
    {
      d := |folders|;
      folders := folders + [FolderRec(img, None, [], [], [])];
      tags := tags + [Tag(0, 0)];
      assert forall i :: 0 <= i < |old(folders)| ==> FolderLinks(folders[i], |roots|, |old(folders)|, |files|);
    }

    /** `Folder::SetName`. */
    method SetFolderName(d: nat, name: Name)
      requires Valid() && d < |folders|
      modifies this
      ensures Valid()
      ensures folders == old(folders)[d := old(folders)[d].(name := name)]
      ensures files == old(files) && tags == old(tags) && roots == old(roots)
    {
      folders := folders[d := folders[d].(name := name)];
      assert FolderLinks(old(folders)[d], |roots|, |folders|, |files|);
    }

    /** `Folder::SetID`. */
    method SetID(d: nat, id: u32)
      requires Valid() && d < |folders|
      modifies this
      ensures Valid()
      ensures tags == old(tags)[d := old(tags)[d].(id := id)]
      ensures files == old(files) && folders == old(folders) && roots == old(roots)
    {
      tags := tags[d := tags[d].(id := id)];
    }

    /** `Folder::SetParentID`. */
    method SetParentID(d: nat, id: u32)
      requires Valid() && d < |folders|
      modifies this
      ensures Valid()
      ensures tags == old(tags)[d := old(tags)[d].(parentId := id)]
      ensures files == old(files) && folders == old(folders) && roots == old(roots)
    {
      tags := tags[d := tags[d].(parentId := id)];
    }

    /** `Folder::AddFile`: the file goes at the end of the folder's list. */
    method AddFile(d: nat, f: nat)
      requires Valid() && d < |folders| && f < |files|
      modifies this
      ensures Valid()
      ensures folders == old(folders)[d := old(folders)[d].(files := old(folders)[d].files + [f])]
      ensures files == old(files) && tags == old(tags) && roots == old(roots)
    {
      folders := folders[d := folders[d].(files := folders[d].files + [f])];
      assert FolderLinks(old(folders)[d], |roots|, |folders|, |files|);
    }

    /** `Folder::GetFileCount`: files plus subfolders, each count and the sum truncated to 16 bits. */
    method GetFileCount(d: nat) returns (n: nat)
      requires d < |folders|
      ensures n < 0x1_0000
      ensures n == (|folders[d].files| + |folders[d].subs|) % 0x1_0000
    {
      n := (|folders[d].files| % 0x1_0000 + |folders[d].subs| % 0x1_0000) % 0x1_0000;
    }

    // -------------------------------------------------------------------
    // Folder::AddSubdirectory, Folder::Copy and Folder::SetParent
    // -------------------------------------------------------------------

    /** The same-disc branch of `Folder::AddSubdirectory`: `dir` gets `d` as parent and goes at the end of `d`'s subfolders. */
    method Attach(d: nat, dir: nat)
      requires Valid() && d < |folders| && dir < |folders|
      modifies this
      ensures Valid()
      ensures var f1 := old(folders)[dir := old(folders)[dir].(parent := Some(d))];
              folders == f1[d := f1[d].(subs := f1[d].subs + [dir])]
      ensures files == old(files) && tags == old(tags) && roots == old(roots)
    {
      folders := folders[dir := folders[dir].(parent := Some(d))];
      folders := folders[d := folders[d].(subs := folders[d].subs + [dir])];
      assert FolderLinks(old(folders)[d], |roots|, |folders|, |files|);
      assert FolderLinks(old(folders)[dir], |roots|, |folders|, |files|);
    }

    /**
      `Folder::AddSubdirectory`.  A folder of the same image is attached
      itself (`Attach`).  A folder of another image is copied into this
      folder's image (`Copy`) and the copy is attached instead; the copy has
      the shape `dir` had, and no folder that existed before changes other
      than by its parent.  Folders the copy creates have ID and parent ID 0.

      When `dir` belongs to another image, `rank` witnesses that the folders
      the copy descends through (`dir`, and below it every subfolder of
      another image) form no cycle, which the recursion through `Copy` needs
      to end; folders it does not reach may link in any way, and attaching a
      folder of the same image asks for nothing.  `lo` is the arena size when
      the outermost copy began: every folder created since is a copy.
    */
    method AddSubdirectory(d: nat, dir: nat, ghost lo: nat, ghost rank: map<nat, nat>)
      requires Valid() && d < |folders| && dir < |folders|
      requires folders[dir].owner != folders[d].owner ==>
                 dir in rank && Ranked(folders, folders[d].owner, lo, rank) && Layered(folders, lo)
      modifies this
      decreases if folders[dir].owner != folders[d].owner && dir in rank then rank[dir] + 1 else 0, 3
      ensures Valid()
      ensures d < |folders| && |folders[d].subs| > 0
      ensures Same(old(folders)[d].(subs := old(folders)[d].subs + [LastSub(d)]), folders[d])
      ensures folders[LastSub(d)].parent == Some(d)
      ensures KeepsBut(old(folders), folders, d)
      ensures old(folders)[dir].owner == old(folders)[d].owner ==>
                && LastSub(d) == dir && |folders| == |old(folders)|
                && var f1 := old(folders)[dir := old(folders)[dir].(parent := Some(d))];
                   folders == f1[d := f1[d].(subs := f1[d].subs + [dir])]
      ensures old(folders)[dir].owner != old(folders)[d].owner ==>
                && |old(folders)| <= LastSub(d) && folders[LastSub(d)].owner == folders[d].owner
                && forall n: nat :: Shape(folders[d := old(folders)[d]], LastSub(d), n) == Shape(old(folders), dir, n)
      ensures Layered(old(folders), lo) && dir < lo && lo <= d ==> Layered(folders, lo)
      ensures dir < lo ==> ParentsKept(old(folders), folders, lo)
      ensures OthersKept(old(folders), folders, old(folders)[d].owner)
      ensures files == old(files) && roots == old(roots)
      ensures old(tags) <= tags && forall i :: |old(tags)| <= i < |tags| ==> tags[i] == Tag(0, 0)
    {
      if folders[dir].owner != folders[d].owner {
        AddCopy(d, dir, lo, rank);
      } else {
        Attach(d, dir);
      }
    }

    /** The cross-disc branch of `AddSubdirectory`: a copy of `dir` is attached. */
    method AddCopy(d: nat, dir: nat, ghost lo: nat, ghost rank: map<nat, nat>)
      requires Valid() && d < |folders| && dir in rank
      requires Ranked(folders, folders[d].owner, lo, rank) && Layered(folders, lo)
      modifies this
      decreases rank[dir] + 1, 2
      ensures Valid()
      ensures d < |folders| && |folders[d].subs| > 0
      ensures Same(old(folders)[d].(subs := old(folders)[d].subs + [LastSub(d)]), folders[d])
      ensures folders[LastSub(d)].parent == Some(d)
      ensures KeepsBut(old(folders), folders, d)
      ensures |old(folders)| <= LastSub(d) && folders[LastSub(d)].owner == folders[d].owner
      ensures forall n: nat :: Shape(folders[d := old(folders)[d]], LastSub(d), n) == Shape(old(folders), dir, n)
      ensures lo <= d ==> Layered(folders, lo)
      ensures ParentsKept(old(folders), folders, lo) && OthersKept(old(folders), folders, old(folders)[d].owner)
      ensures files == old(files) && roots == old(roots)
      ensures old(tags) <= tags && forall i :: |old(tags)| <= i < |tags| ==> tags[i] == Tag(0, 0)
    {
      ghost var f0 := folders;
      var copy := Copy(dir, folders[d].owner, lo, rank);
      ghost var mid := folders;
      Attach(d, copy);
      ghost var restored := folders[d := f0[d]];
      forall i | 0 <= i < |mid|
        ensures Same(mid[i], restored[i])
      {
      }
      forall n: nat
        ensures Shape(restored, copy, n) == Shape(f0, dir, n)
      {
        ShapeSame(mid, restored, copy, n);
      }
      assert LastSub(d) == copy;
      KeepsButTrans(f0, mid, folders, d);
    }

    /**
      `Folder::Copy(disk)`: a new folder of image `img` with `src`'s name,
      its subfolders attached in order through `AddSubdirectory` (so each is
      copied again unless it already belongs to `img`) and its file objects
      shared.  The copy has exactly the shape of `src`.
    */
    method Copy(src: nat, img: nat, ghost lo: nat, ghost rank: map<nat, nat>) returns (c: nat)
      requires Valid() && src in rank && img < |roots|
      requires Ranked(folders, img, lo, rank) && Layered(folders, lo)
      modifies this
      decreases rank[src] + 1, 1
      ensures Valid()
      ensures c == |old(folders)| && c < |folders|
      ensures folders[c].owner == img && folders[c].parent == None
      ensures forall n: nat :: Shape(folders, c, n) == Shape(old(folders), src, n)
      ensures KeepsBut(old(folders), folders, c)
      ensures Layered(folders, lo) && ParentsKept(old(folders), folders, lo) && OthersKept(old(folders), folders, img)
      ensures files == old(files) && roots == old(roots)
      ensures old(tags) <= tags && forall i :: |old(tags)| <= i < |tags| ==> tags[i] == Tag(0, 0)
    {
      c := NewFolder(img);
      SetFolderName(c, folders[src].name);
      assert Same(old(folders)[src], folders[src]);
      ghost var f1 := folders;
      assert KeepsBut(old(folders), f1, c);
      CopySubdirs(c, src, lo, rank);
      ghost var f2 := folders;
      OthersKeptTrans(old(folders), f1, f2, img, c);
      KeepsButTrans(old(folders), f1, f2, c);
      CopyFiles(c, src);
      KeepsButTrans(old(folders), f2, folders, c);
      CopyShape(old(folders), f1, f2, folders, lo, c, src);
    }

    /** The loop of `Copy` over the subfolders of `src`, attaching each to the new folder `c`. */
    method CopySubdirs(c: nat, src: nat, ghost lo: nat, ghost rank: map<nat, nat>)
      requires Valid() && src in rank && c < |folders| && lo <= c && src < c
      requires Ranked(folders, folders[c].owner, lo, rank) && Layered(folders, lo)
      requires folders[c].subs == [] && folders[c].parent == None
      modifies this
      decreases rank[src] + 1, 0
      ensures Valid()
      ensures |old(folders)| <= |folders|
      ensures folders[c] == old(folders)[c].(subs := folders[c].subs)
      ensures |folders[c].subs| == |old(folders)[src].subs|
      ensures forall j, n: nat :: 0 <= j < |folders[c].subs| ==>
                Shape(folders, folders[c].subs[j], n) == Shape(old(folders), old(folders)[src].subs[j], n)
      ensures KeepsBut(old(folders), folders, c)
      ensures Layered(folders, lo) && ParentsKept(old(folders), folders, lo)
      ensures OthersKept(old(folders), folders, old(folders)[c].owner)
      ensures files == old(files) && roots == old(roots)
      ensures old(tags) <= tags && forall i :: |old(tags)| <= i < |tags| ==> tags[i] == Tag(0, 0)
    {
      ghost var f0 := folders;
      var subs := folders[src].subs;
      var k := 0;
      while k < |subs|
        invariant Valid() && k <= |subs| && c < |folders| && src < |f0|
        invariant subs == f0[src].subs
        invariant folders[c] == f0[c].(subs := folders[c].subs) && |folders[c].subs| == k
        invariant forall j, n: nat :: 0 <= j < k ==> Shape(folders, folders[c].subs[j], n) == Shape(f0, subs[j], n)
        invariant KeepsBut(f0, folders, c) && Layered(folders, lo) && Ranked(folders, f0[c].owner, lo, rank)
        invariant ParentsKept(f0, folders, lo) && OthersKept(f0, folders, f0[c].owner)
        invariant files == old(files) && roots == old(roots)
        invariant old(tags) <= tags && forall i :: |old(tags)| <= i < |tags| ==> tags[i] == Tag(0, 0)
      {
        ghost var before, bt := folders, tags;
        assert Same(f0[src], before[src]);
        AddSubdirectory(c, subs[k], lo, rank);
        OthersKeptTrans(f0, before, folders, f0[c].owner, c);
        KeepsButTrans(f0, before, folders, c);
        RankedKept(before, folders, f0[c].owner, lo, rank, c);
        PrefixTrans(old(tags), bt, tags);
        CopyStep(f0, before, folders, lo, c, subs, k, LastSub(c));
        k := k + 1;
      }
    }

    /** The loop of `Copy` over the files of `src`: the same file objects, in order. */
    method CopyFiles(c: nat, src: nat)
      requires Valid() && c < |folders| && src < |folders| && src != c && folders[c].files == []
      modifies this
      ensures Valid()
      ensures folders == old(folders)[c := old(folders)[c].(files := old(folders)[src].files)]
      ensures files == old(files) && tags == old(tags) && roots == old(roots)
    {
      var fs := folders[src].files;
      var j := 0;
      while j < |fs|
        invariant Valid() && j <= |fs| && |folders| == |old(folders)|
        invariant folders == old(folders)[c := old(folders)[c].(files := fs[..j])]
        invariant files == old(files) && tags == old(tags) && roots == old(roots)
      {
        assert FolderLinks(folders[src], |roots|, |folders|, |files|);
        AddFile(c, fs[j]);
        assert fs[..j + 1] == fs[..j] + [fs[j]];
        j := j + 1;
      }
      assert fs[..j] == fs;
    }

    /**
      `Folder::SetParent`: `dir` records `d` as its parent and `d` then adds
      `dir` through `AddSubdirectory`.  When `dir` belongs to another image,
      `d` receives a copy, yet `dir` keeps `d` as its recorded parent.
    */
    method SetParent(dir: nat, d: nat, ghost rank: map<nat, nat>)
      requires Valid() && d < |folders| && dir < |folders|
      requires folders[dir].owner != folders[d].owner ==> dir in rank && Ranked(folders, folders[d].owner, |folders|, rank)
      modifies this
      ensures Valid()
      ensures d < |folders| && |folders[d].subs| > 0 && folders[LastSub(d)].parent == Some(d)
      ensures Same(old(folders)[d].(subs := old(folders)[d].subs + [LastSub(d)]), folders[d])
      ensures dir < |folders| && folders[dir].parent == Some(d)
      ensures old(folders)[dir].owner == old(folders)[d].owner ==> LastSub(d) == dir && |folders| == |old(folders)|
      ensures old(folders)[dir].owner != old(folders)[d].owner ==>
                && dir != LastSub(d) && |old(folders)| <= LastSub(d)
                && forall n: nat :: Shape(folders[d := old(folders)[d]], LastSub(d), n) == Shape(old(folders), dir, n)
      ensures files == old(files) && roots == old(roots)
    {
      ghost var f0 := folders;
      folders := folders[dir := folders[dir].(parent := Some(d))];
      assert FolderLinks(f0[dir], |roots|, |folders|, |files|);
      forall i | 0 <= i < |folders|
        ensures Same(f0[i], folders[i])
      {
      }
      if f0[dir].owner != f0[d].owner {
        ClosedLayered(f0);
        RankedKept(f0, folders, f0[d].owner, |folders|, rank, |folders|);
      }
      ClosedLayered(folders);
      ghost var f1 := folders;
      AddSubdirectory(d, dir, |folders|, rank);
      if f0[dir].owner != f0[d].owner {
        assert f1[d] == f0[d];
        forall n: nat
          ensures Shape(f1, dir, n) == Shape(f0, dir, n)
        {
          ShapeSame(f0, f1, dir, n);
        }
      }
    }

    // -------------------------------------------------------------------
    // Path lookup
    // -------------------------------------------------------------------

    /** `Folder::GetFolder` of src/GCM.cpp: the first subfolder named like the first component decides (see `FindFolder`). */
    method GetFolder(d: nat, path: Path) returns (r: Option<nat>)
      requires Valid() && d < |folders|
      ensures FilesIn(files, folders) && r == FindFolder(View(files, folders), d, path)
      decreases |path|
    {
      ValidFilesIn();
      ghost var v := View(files, folders);
      r := None;
      if path != [] {
        var subs := folders[d].subs;
        assert v[d].subdirs == subs;
        var k := 0;
        var done := false;
        while k < |subs| && !done
          invariant k <= |subs|
          invariant forall q :: 0 <= q < |subs| ==> subs[q] < |folders| && v[subs[q]].name == folders[subs[q]].name
          invariant !done ==> r == None && FirstMatch(v, subs, path[0]) == FirstMatch(v, subs[k..], path[0])
          invariant done ==> r == FindFolder(v, d, path)
          decreases |subs| - k, if done then 0 else 1
        {
          if folders[subs[k]].name == path[0] {
            assert subs[k..][0] == subs[k];
            assert FirstMatch(v, subs, path[0]) == Some(subs[k]);
            if |path| == 1 {
              r := Some(subs[k]);
            } else {
              r := GetFolder(subs[k], path[1..]);
            }
            done := true;
          } else {
            assert subs[k..][1..] == subs[k + 1..];
            k := k + 1;
          }
        }
        if !done {
          assert subs[k..] == [];
        }
      }
    }

    /**
      `Folder::GetFile` of src/GCM.cpp (see `FindDiscFile`): the result,
      seen through its name and bytes, is the file the lookup specifies.
      Unlike the archive lookup it changes nothing.
    */
    method GetFile(d: nat, path: Path) returns (r: Option<nat>)
      requires Valid() && d < |folders|
      ensures FilesIn(files, folders) && (r.Some? ==> r.value < |files|)
      ensures FileOf(files, r) == FindDiscFile(View(files, folders), d, path)
      decreases |path|, 2
    {
      ValidFilesIn();
      ghost var v := View(files, folders);
      r := None;
      if path != [] {
        var found;
        found, r := FileLoop(d, path);
        if !found {
          r := SubLoop(d, path);
        }
      }
    }

    /** The file loop of `Folder::GetFile`: it returns only for a one-component path. */
    method FileLoop(d: nat, path: Path) returns (found: bool, r: Option<nat>)
      requires Valid() && d < |folders| && path != []
      ensures FilesIn(files, folders) && (r.Some? ==> r.value < |files|)
      ensures found <==> |path| == 1 && FirstFile(View(files, folders)[d].files, path[0]).Some?
      ensures found ==> FileOf(files, r) == FirstFile(View(files, folders)[d].files, path[0])
    {
      ValidFilesIn();
      ghost var vfs := View(files, folders)[d].files;
      var fs := folders[d].files;
      assert FolderLinks(folders[d], |roots|, |folders|, |files|);
      found, r := false, None;
      if |path| == 1 {
        var k := 0;
        while k < |fs| && !found
          invariant k <= |fs| && |vfs| == |fs|
          invariant !found ==> FirstFile(vfs, path[0]) == FirstFile(vfs[k..], path[0]) && r == None
          invariant found ==> r.Some? && r.value < |files| && FileOf(files, r) == FirstFile(vfs, path[0])
          decreases |fs| - k, if found then 0 else 1
        {
          assert vfs[k] == FileViewOf(files[fs[k]]);
          assert vfs[k..][0] == vfs[k];
          if files[fs[k]].name == path[0] {
            r, found := Some(fs[k]), true;
          } else {
            assert vfs[k..][1..] == vfs[k + 1..];
            k := k + 1;
          }
        }
      }
    }

    /** The subfolder loop of `Folder::GetFile`: every subfolder named like the first component is searched, the last one's result stays. */
    method SubLoop(d: nat, path: Path) returns (r: Option<nat>)
      requires Valid() && d < |folders| && path != []
      ensures FilesIn(files, folders) && (r.Some? ==> r.value < |files|)
      ensures FileOf(files, r) == match LastMatch(View(files, folders), folders[d].subs, path[0])
                                  case None => None
                                  case Some(s) => FindDiscFile(View(files, folders), s, path[1..])
      decreases |path|, 1
    {
      ValidFilesIn();
      ghost var v := View(files, folders);
      var subs := folders[d].subs;
      r := None;
      var j := 0;
      while j < |subs|
        invariant j <= |subs| && (r.Some? ==> r.value < |files|)
        invariant FileOf(files, r) == match LastMatch(v, subs[..j], path[0])
                                      case None => None
                                      case Some(s) => FindDiscFile(v, s, path[1..])
      {
        r := SubStep(v, path, subs, j, r);
        j := j + 1;
      }
      assert subs[..j] == subs;
    }

    /** One subfolder of the `GetFile` scan: search it when its name matches. */
    method SubStep(ghost v: seq<RarcLoad.LoadedDir>, path: Path, subs: seq<nat>, j: nat, r0: Option<nat>) returns (r: Option<nat>)
      requires Valid() && FilesIn(files, folders) && v == View(files, folders)
      requires path != [] && j < |subs| && subs[j] < |folders|
      requires r0.Some? ==> r0.value < |files|
      requires FileOf(files, r0) == match LastMatch(v, subs[..j], path[0])
                                    case None => None
                                    case Some(s) => FindDiscFile(v, s, path[1..])
      decreases |path|, 0
      ensures r.Some? ==> r.value < |files|
      ensures FileOf(files, r) == match LastMatch(v, subs[..j + 1], path[0])
                                  case None => None
                                  case Some(s) => FindDiscFile(v, s, path[1..])
    {
      assert subs[..j + 1][..j] == subs[..j];
      assert subs[..j + 1][j] == subs[j];
      assert v[subs[j]].name == folders[subs[j]].name;
      r := r0;
      if folders[subs[j]].name == path[0] {
        r := GetFile(subs[j], path[1..]);
      }
    }

    /** `Image::GetFile`: from the image's root, a leading "/" dropped. */
    method ImageGetFile(img: nat, path: Path) returns (r: Option<nat>)
      requires Valid() && img < |roots| && roots[img].Some?
      ensures FilesIn(files, folders) && (r.Some? ==> r.value < |files|)
      ensures FileOf(files, r) == FindDiscFile(View(files, folders), roots[img].value, Relative(path))
    {
      var p := path;
      if path != [] && path[0] == SLASH {
        p := path[1..];
      }
      r := GetFile(roots[img].value, p);
    }

    /** `Image::GetFolder`: from the image's root, a leading "/" dropped. */
    method ImageGetFolder(img: nat, path: Path) returns (r: Option<nat>)
      requires Valid() && img < |roots| && roots[img].Some?
      ensures FilesIn(files, folders) && r == FindFolder(View(files, folders), roots[img].value, Relative(path))
    {
      var p := path;
      if path != [] && path[0] == SLASH {
        p := path[1..];
      }
      r := GetFolder(roots[img].value, p);
    }

    // -------------------------------------------------------------------
    // Image::Load
    // -------------------------------------------------------------------

    /**
      `Image::Load` into image `img`.  It returns false for a CISO or NKIT
      image, and in this model also when a read runs past the end of the
      disc; then nothing changes.  Otherwise the image's root is a new folder
      "root" holding "sys" (apploader.img, bi2.bin, boot.bin, fst.bin and
      main.dol, as `SysFiles` reads them) and then "files"; every folder
      `LoadDir` read keeps its ID pair, its files and its name, and is
      attached to the first folder whose ID is its parent ID (see `ParentOf`
      and `Children`).
    */
    method Load(img: nat, disc: seq<byte>) returns (ok: bool)
      requires Valid() && img < |roots|
      modifies this
      ensures Valid()
      ensures ok <==> LoadImage(disc).Image?
      ensures !ok ==> files == old(files) && folders == old(folders) && tags == old(tags) && roots == old(roots)
      ensures ok ==> old(files) <= files && old(folders) <= folders && old(tags) <= tags
      ensures ok ==> roots == old(roots)[img := Some(|old(folders)|)]
      ensures ok ==> LoadedImage(files, folders, tags, img, |old(folders)|, LoadImage(disc).folders, LoadImage(disc).sys)
    {
      var out := ReadImage(disc);
      ok := out.Image?;
      if ok {
        Build(img, out.folders, out.sys);
      }
    }

    /** The objects `Load` creates from what it read. */
    method Build(img: nat, ls: seq<Loaded>, sys: seq<FileNode>)
      requires Valid() && img < |roots| && |ls| > 0 && Tags32(ls) && ls[0].id == 0
      modifies this
      ensures Valid()
      ensures old(files) <= files && old(folders) <= folders && old(tags) <= tags
      ensures roots == old(roots)[img := Some(|old(folders)|)]
      ensures LoadedImage(files, folders, tags, img, |old(folders)|, ls, sys)
    {
      var root := MakeRoot(img);
      ghost var fa, ta := folders, tags;
      CreateLoaded(img, ls);
      ghost var fb, tb := folders, tags;
      LinkLoaded(img, root + 2, ls);
      Finish(img, root, root + 2, ls, sys);
      assert folders[..root] == fa[..root] by {
        assert folders[..root] == fb[..root];
        assert fb[..root] == fa[..root];
      }
      assert tags[..root] == ta[..root] by {
        assert tags == tb;
        assert tb[..root] == ta[..root];
      }
    }

    /** Image::Load's "root" folder of image `img` and its "sys" folder, both still empty. */
    method MakeRoot(img: nat) returns (root: nat)
      requires Valid() && img < |roots|
      modifies this
      ensures Valid() && root == |old(folders)| && files == old(files) && roots == old(roots)[img := Some(root)]
      ensures folders == old(folders) + [FolderRec(img, None, ROOT_NAME, [], []), FolderRec(img, None, SYS_NAME, [], [])]
      ensures tags == old(tags) + [Tag(0, 0), Tag(0, 0)]
    {
      root := NewFolder(img);
      SetFolderName(root, ROOT_NAME);
      roots := roots[img := Some(root)];
      var sysd := NewFolder(img);
      SetFolderName(sysd, SYS_NAME);
    }

    /** The end of Image::Load: the system files go into "sys", then "sys" and "files" into "root". */
    method Finish(img: nat, base: nat, lb: nat, ls: seq<Loaded>, sys: seq<FileNode>)
      requires Valid() && |ls| > 0 && lb == base + 2 && |folders| == lb + |ls|
      requires folders[base] == FolderRec(img, None, ROOT_NAME, [], []) && folders[base + 1] == FolderRec(img, None, SYS_NAME, [], [])
      requires tags[base] == Tag(0, 0) && tags[base + 1] == Tag(0, 0)
      requires forall k :: 0 <= k < |ls| ==> Made(files, folders, tags, img, lb, ls, k) && LinkedTo(folders, lb, ls, k, None)
      modifies this
      ensures Valid() && old(files) <= files && |folders| == |old(folders)| && folders[..base] == old(folders)[..base]
      ensures tags == old(tags) && roots == old(roots)
      ensures LoadedImage(files, folders, tags, img, base, ls, sys)
    {
      var ids := LoadFiles(base + 1, Views(sys));
      ghost var f1 := folders;
      Attach(base, base + 1);
      Attach(base, base + 2);
      ValidFilesIn();
      forall k | 0 <= k < |ls|
        ensures LoadedAt(files, folders, tags, img, base, ls, k)
      {
        assert Made(old(files), old(folders), tags, img, lb, ls, k) && LinkedTo(old(folders), lb, ls, k, None);
        assert f1[lb + k] == old(folders)[lb + k];
        FileViewsGrow(old(files), files, old(folders)[lb + k].files);
      }
      assert folders[..base] == old(folders)[..base];
    }

    /** The folders `LoadDir` created, one per element of `ls` in order, each with its name, ID pair and files. */
    method CreateLoaded(img: nat, ls: seq<Loaded>)
      requires Valid() && img < |roots| && Tags32(ls)
      modifies this
      ensures Valid() && old(files) <= files && old(folders) <= folders && old(tags) <= tags && roots == old(roots)
      ensures |folders| == |old(folders)| + |ls|
      ensures forall x :: 0 <= x < |ls| ==> Made(files, folders, tags, img, |old(folders)|, ls, x)
      ensures forall x :: 0 <= x < |ls| ==> Unlinked(folders, |old(folders)|, x)
    {
      var lb := |folders|;
      var k := 0;
      while k < |ls|
        invariant Valid() && k <= |ls| && |folders| == lb + k && roots == old(roots)
        invariant old(files) <= files && old(folders) <= folders && old(tags) <= tags
        invariant forall x :: 0 <= x < k ==> Made(files, folders, tags, img, lb, ls, x)
        invariant forall x :: 0 <= x < k ==> Unlinked(folders, lb, x)
      {
        ghost var g0, d0, t0 := files, folders, tags;
        CreateOne(img, ls[k]);
        ValidFilesIn();
        forall x | 0 <= x < k + 1
          ensures Made(files, folders, tags, img, lb, ls, x)
          ensures Unlinked(folders, lb, x)
        {
          if x < k {
            assert Made(g0, d0, t0, img, lb, ls, x) && Unlinked(d0, lb, x);
            assert folders[lb + x] == d0[lb + x];
            assert FilesIn(g0, d0);
            FileViewsGrow(g0, files, d0[lb + x].files);
          } else {
            assert Made(files, folders, tags, img, lb + k, [ls[k]], 0);
            assert Unlinked(folders, lb + k, 0);
          }
        }
        PrefixTrans(old(files), g0, files);
        PrefixTrans(old(folders), d0, folders);
        PrefixTrans(old(tags), t0, tags);
        k := k + 1;
      }
    }

    /** One folder of `LoadDir`: `Folder::Create`, `SetName`, `SetID`, `SetParentID`, then its files. */
    method CreateOne(img: nat, l: Loaded)
      requires Valid() && img < |roots| && l.id < TWO_32 && l.parentId < TWO_32
      modifies this
      ensures Valid() && old(files) <= files && roots == old(roots)
      ensures |folders| == |old(folders)| + 1 && old(folders) <= folders && tags == old(tags) + [Tag(l.id, l.parentId)]
      ensures Made(files, folders, tags, img, |old(folders)|, [l], 0)
      ensures Unlinked(folders, |old(folders)|, 0)
    {
      var d := NewFolder(img);
      SetFolderName(d, l.name);
      SetID(d, l.id);
      SetParentID(d, l.parentId);
      var ids := LoadFiles(d, Views(l.files));
      ValidFilesIn();
      assert folders[..d] == old(folders);
    }

    /** The files of one folder: for each, a new `File` named and filled, added to folder `d`. */
    method LoadFiles(d: nat, fs: seq<RarcFormat.FileView>) returns (ids: seq<nat>)
      requires Valid() && d < |folders| && folders[d].files == []
      modifies this
      ensures Valid() && old(files) <= files
      ensures folders == old(folders)[d := old(folders)[d].(files := ids)]
      ensures (forall k :: 0 <= k < |ids| ==> ids[k] < |files|) && FileViews(files, ids) == fs
      ensures tags == old(tags) && roots == old(roots)
    {
      ids := [];
      var k := 0;
      while k < |fs|
        invariant Valid() && k <= |fs| && old(files) <= files
        invariant folders == old(folders)[d := old(folders)[d].(files := ids)]
        invariant (forall j :: 0 <= j < |ids| ==> ids[j] < |files|) && FileViews(files, ids) == fs[..k]
        invariant tags == old(tags) && roots == old(roots)
      {
        ghost var before := files;
        var f := NewFile();
        SetFileName(f, fs[k].name);
        SetData(f, fs[k].data);
        AddFile(d, f);
        assert FileViews(files, ids) == FileViews(before, ids);
        assert FileViews(files, ids + [f]) == FileViews(files, ids) + [fs[k]];
        assert fs[..k + 1] == fs[..k] + [fs[k]];
        ids := ids + [f];
        k := k + 1;
      }
      assert fs[..k] == fs;
    }

    /**
      The link loop of `Load`: for each folder in the order read, the
      first folder whose ID equals its parent ID (none for ID 0) takes it
      through `AddSubdirectory`.  All of them belong to this image, so that
      is the same-disc branch, `Attach`.
    */
    method LinkLoaded(img: nat, lb: nat, ls: seq<Loaded>)
      requires Valid() && lb + |ls| == |folders| && |ls| > 0 && ls[0].id == 0
      requires forall x :: 0 <= x < |ls| ==> Made(files, folders, tags, img, lb, ls, x) && Unlinked(folders, lb, x)
      modifies this
      ensures Valid() && files == old(files) && tags == old(tags) && roots == old(roots)
      ensures |folders| == |old(folders)| && folders[..lb] == old(folders)[..lb]
      ensures forall x :: 0 <= x < |ls| ==> Made(files, folders, tags, img, lb, ls, x) && LinkedTo(folders, lb, ls, x, None)
    {
      StartLinking(files, folders, tags, img, lb, ls);
      LinkAll(lb, ls);
      ValidFilesIn();
      forall x | 0 <= x < |ls|
        ensures Made(files, folders, tags, img, lb, ls, x) && LinkedTo(folders, lb, ls, x, None)
      {
        LinkedMade(files, old(folders), folders, tags, img, lb, ls, x);
      }
    }

    /** The loop of `LinkLoaded` over the folders in the order read. */
    method LinkAll(lb: nat, ls: seq<Loaded>)
      requires Valid() && Linking(folders, folders, lb, ls, 0)
      requires forall x :: 0 <= x < |ls| ==> Tagged(tags, lb, ls, x)
      modifies this
      ensures Valid() && Linking(old(folders), folders, lb, ls, |ls|)
      ensures files == old(files) && tags == old(tags) && roots == old(roots)
    {
      var k := 0;
      while k < |ls|
        invariant Valid() && k <= |ls| && Linking(old(folders), folders, lb, ls, k)
        invariant files == old(files) && tags == old(tags) && roots == old(roots)
      {
        LinkOne(old(folders), lb, ls, k);
        k := k + 1;
      }
      assert k == |ls|;
    }

    /** One pass of the link loop, for folder `k`. */
    method LinkOne(ghost f0: seq<FolderRec>, lb: nat, ls: seq<Loaded>, k: nat)
      requires Valid() && k < |ls| && Linking(f0, folders, lb, ls, k)
      requires forall x :: 0 <= x < |ls| ==> Tagged(tags, lb, ls, x)
      modifies this
      ensures Valid() && Linking(f0, folders, lb, ls, k + 1)
      ensures files == old(files) && tags == old(tags) && roots == old(roots)
    {
      var p := FindParent(lb, ls, k);
      if p.Some? {
        Attach(lb + p.value, lb + k);
      }
      LinkStep(f0, old(folders), folders, lb, ls, k);
    }

    /** The inner loop of the link loop: the first folder whose ID is folder `k`'s parent ID, unless `k`'s ID is 0. */
    method FindParent(lb: nat, ls: seq<Loaded>, k: nat) returns (p: Option<nat>)
      requires lb + |ls| <= |tags| && k < |ls|
      requires forall x :: 0 <= x < |ls| ==> Tagged(tags, lb, ls, x)
      ensures p == ParentOf(ls, k)
    {
      assert Tagged(tags, lb, ls, k);
      p := None;
      var j := 0;
      var found := false;
      while j < |ls| && !found
        invariant j <= |ls|
        invariant !found ==> p == None && (tags[lb + k].id == 0 || FirstWithId(ls, ls[k].parentId, 0) == FirstWithId(ls, ls[k].parentId, j))
        invariant found ==> p == ParentOf(ls, k)
        decreases |ls| - j, if found then 0 else 1
      {
        assert Tagged(tags, lb, ls, j);
        if tags[lb + k].id != 0 && tags[lb + j].id == tags[lb + k].parentId {
          p, found := Some(j), true;
        } else {
          j := j + 1;
        }
      }
    }
  }
}
