/**
  Path lookup in an archive's folder tree (src/Archive.cpp:30-73 and
  include/Archive.hpp:177-196), as functions over the folders' contents.

  A path is the sequence of its components; an absolute path starts with
  the component "/".  Folders are `LoadedDir` values: a name, the positions
  of the subfolders, and the files as name and bytes.  Looking a file up
  may mount a file of the tree as an archive on the way
  (`File::MountAsArchive`), which is `LoadSpec` of that file's bytes.
*/
module RarcPaths {
  import opened Util
  import opened Bytes
  import opened RarcFormat
  import opened RarcLoad
  import opened RarcObjects

  type Path = seq<Name>

  /** Every subfolder position names one of the folders. */
  predicate ClosedDirs(v: seq<LoadedDir>) {
    forall i, k :: 0 <= i < |v| && 0 <= k < |v[i].subdirs| ==> v[i].subdirs[k] < |v|
  }

  /** `base`, `base + 1`, ..., `base + n - 1`: where `Load` puts the folders it creates. */
  function Range(base: nat, n: nat): (r: seq<nat>)
    ensures |r| == n && forall i :: 0 <= i < n ==> r[i] == base + i
  {
    seq(n, i requires 0 <= i < n => base + i)
  }

  /** A path with its leading "/" component dropped, if it has one. */
  function Relative(path: Path): (r: Path)
    ensures |r| <= |path|
  {
    if path != [] && path[0] == SLASH then path[1..] else path
  }

  // ---------------------------------------------------------------------
  // Folder::GetFolder
  // ---------------------------------------------------------------------

  /** The first of `subs` naming a folder called `name` (the loop of src/Archive.cpp:62-70). */
  function FirstMatch(v: seq<LoadedDir>, subs: seq<nat>, name: Name): (r: Option<nat>)
    ensures r.Some? ==> r.value in subs && r.value < |v| && v[r.value].name == name
    ensures r.None? ==> forall k :: 0 <= k < |subs| && subs[k] < |v| ==> v[subs[k]].name != name
  {
    if subs == [] then None
    else if subs[0] < |v| && v[subs[0]].name == name then Some(subs[0])
    else
      var r := FirstMatch(v, subs[1..], name);
      assert forall k :: 1 <= k < |subs| ==> subs[k] == subs[1..][k - 1];
      r
  }

  /**
    `Folder::GetFolder`: the first subfolder named like the first component
    decides; it is the result for a one-component path and is searched for
    the rest otherwise.
  */
  function FindFolder(v: seq<LoadedDir>, d: nat, path: Path): Option<nat>
    decreases |path|
  {
    if path == [] || d >= |v| then None
    else
      match FirstMatch(v, v[d].subdirs, path[0])
      case None => None
      case Some(s) => if |path| == 1 then Some(s) else FindFolder(v, s, path[1..])
  }

  /** `Rarc::GetFolder` on an archive whose directory list is `dirs`. */
  function ArchiveFolder(v: seq<LoadedDir>, dirs: seq<nat>, path: Path): Option<nat> {
    if dirs == [] then None else FindFolder(v, dirs[0], Relative(path))
  }

  // ---------------------------------------------------------------------
  // Folder::GetFile
  // ---------------------------------------------------------------------

  /** The last of `subs` naming a folder called `name` (the loop of src/Archive.cpp:50-56 keeps overwriting). */
  function LastMatch(v: seq<LoadedDir>, subs: seq<nat>, name: Name): (r: Option<nat>)
    ensures r.Some? ==> r.value in subs && r.value < |v| && v[r.value].name == name
    ensures r.None? ==> forall k :: 0 <= k < |subs| && subs[k] < |v| ==> v[subs[k]].name != name
  {
    if subs == [] then None
    else if subs[|subs| - 1] < |v| && v[subs[|subs| - 1]].name == name then Some(subs[|subs| - 1])
    else
      var r := LastMatch(v, subs[..|subs| - 1], name);
      assert forall k :: 0 <= k < |subs| - 1 ==> subs[k] == subs[..|subs| - 1][k];
      r
  }

  /**
    The file loop of `Folder::GetFile` from the `k`-th file on: `Some(r)`
    when it returns `r`, `None` when it runs off the end.  A file named like
    the first component is the result for a one-component path; for a longer
    one it is mounted, and when it loads as an archive the rest of the path
    is looked up there, whatever that gives.
  */
  function FileHit(fs: seq<FileView>, k: nat, path: Path): Option<Option<FileView>>
    requires path != []
    decreases |path|, 1, |fs| - k
  {
    if k >= |fs| then None
    else if fs[k].name == path[0] && |path| == 1 then Some(Some(fs[k]))
    else if fs[k].name == path[0] && LoadSpec(fs[k].data).Loaded? then
      Some(ArchiveFile(LoadSpec(fs[k].data).dirs, Range(0, |LoadSpec(fs[k].data).dirs|), path[1..]))
    else FileHit(fs, k + 1, path)
  }

  /**
    `Folder::GetFile`: the file loop first; failing that, the result for the
    rest of the path in the last subfolder named like the first component.
  */
  function FindFile(v: seq<LoadedDir>, d: nat, path: Path): Option<FileView>
    decreases |path|, 2
  {
    if path == [] || d >= |v| then None
    else
      match FileHit(v[d].files, 0, path)
      case Some(r) => r
      case None =>
        match LastMatch(v, v[d].subdirs, path[0])
        case None => None
        case Some(s) => FindFile(v, s, path[1..])
  }

  /** `Rarc::GetFile` on an archive whose directory list is `dirs`. */
  function ArchiveFile(v: seq<LoadedDir>, dirs: seq<nat>, path: Path): Option<FileView>
    decreases |path|, 3
  {
    if dirs == [] then None else FindFile(v, dirs[0], Relative(path))
  }

  /** The first file called `name`. */
  function FirstFile(fs: seq<FileView>, name: Name): (r: Option<FileView>)
    ensures r.Some? ==> r.value in fs && r.value.name == name
    ensures r.None? ==> forall k :: 0 <= k < |fs| ==> fs[k].name != name
  {
    if fs == [] then None
    else if fs[0].name == name then Some(fs[0])
    else
      var r := FirstFile(fs[1..], name);
      assert forall k :: 1 <= k < |fs| ==> fs[k] == fs[1..][k - 1];
      r
  }

  // ---------------------------------------------------------------------
  // What the lookups promise
  // ---------------------------------------------------------------------

  /** A folder found for a path is one of the folders and carries the path's last component as its name. */
  lemma {:induction false} FindFolderNamed(v: seq<LoadedDir>, d: nat, path: Path)
    ensures FindFolder(v, d, path).Some? ==>
              FindFolder(v, d, path).value < |v| && v[FindFolder(v, d, path).value].name == path[|path| - 1]
    decreases |path|
  {
    if path != [] && d < |v| && |path| > 1 {
      var m := FirstMatch(v, v[d].subdirs, path[0]);
      if m.Some? {
        FindFolderNamed(v, m.value, path[1..]);
      }
    }
  }

  /**
    No backtracking: looking up `p + q` is looking up `p` and then `q` from
    the folder found, and fails when `p` fails, even if another folder with
    the same name would have led somewhere.
  */
  lemma {:induction false} FindFolderCompose(v: seq<LoadedDir>, d: nat, p: Path, q: Path)
    requires p != [] && q != []
    ensures FindFolder(v, d, p + q) ==
              match FindFolder(v, d, p)
              case None => None
              case Some(e) => FindFolder(v, e, q)
    decreases |p|
  {
    assert (p + q)[0] == p[0];
    if d < |v| {
      var m := FirstMatch(v, v[d].subdirs, p[0]);
      if m.Some? {
        if |p| == 1 {
          assert (p + q)[1..] == q;
        } else {
          assert (p + q)[1..] == p[1..] + q;
          FindFolderCompose(v, m.value, p[1..], q);
        }
      }
    }
  }

  /** The file loop finds a file only under the first component's name, or inside an archive mounted from one. */
  lemma {:induction false} FileHitNamed(fs: seq<FileView>, k: nat, path: Path)
    requires path != []
    ensures FileHit(fs, k, path).Some? && FileHit(fs, k, path).value.Some? ==>
              FileHit(fs, k, path).value.value.name == path[|path| - 1]
    decreases |path|, 1, |fs| - k
  {
    if k < |fs| {
      if fs[k].name == path[0] && |path| == 1 {
      } else if fs[k].name == path[0] && LoadSpec(fs[k].data).Loaded? {
        var ds := LoadSpec(fs[k].data).dirs;
        ArchiveFileNamed(ds, Range(0, |ds|), path[1..]);
      } else {
        FileHitNamed(fs, k + 1, path);
      }
    }
  }

  /** A file found for a path carries the path's last component as its name, through any mounted archives. */
  lemma {:induction false} FindFileNamed(v: seq<LoadedDir>, d: nat, path: Path)
    ensures FindFile(v, d, path).Some? ==> FindFile(v, d, path).value.name == path[|path| - 1]
    decreases |path|, 2
  {
    if path != [] && d < |v| {
      var hit := FileHit(v[d].files, 0, path);
      var m := LastMatch(v, v[d].subdirs, path[0]);
      if hit.Some? {
        FileHitNamed(v[d].files, 0, path);
        assert FindFile(v, d, path) == hit.value;
      } else if m.Some? {
        FindFileNamed(v, m.value, path[1..]);
        assert FindFile(v, d, path) == FindFile(v, m.value, path[1..]);
        if |path| > 1 {
          assert path[1..][|path| - 2] == path[|path| - 1];
        }
      }
    }
  }

  lemma {:induction false} ArchiveFileNamed(v: seq<LoadedDir>, dirs: seq<nat>, path: Path)
    ensures ArchiveFile(v, dirs, path).Some? ==> path != []
    ensures ArchiveFile(v, dirs, path).Some? ==> ArchiveFile(v, dirs, path).value.name == path[|path| - 1]
    decreases |path|, 3
  {
    if dirs != [] {
      FindFileNamed(v, dirs[0], Relative(path));
    }
  }

  /** For a one-component path the file loop gives the first file of that name, and nothing is mounted. */
  lemma {:induction false} FileHitSingle(fs: seq<FileView>, k: nat, name: Name)
    requires k <= |fs|
    ensures FileHit(fs, k, [name]) == if FirstFile(fs[k..], name).None? then None else Some(FirstFile(fs[k..], name))
    decreases |fs| - k
  {
    if k < |fs| {
      assert fs[k..][0] == fs[k];
      assert fs[k..][1..] == fs[k + 1..];
      FileHitSingle(fs, k + 1, name);
    }
  }

  /**
    A one-component path names a file of the folder itself: the first one so
    named, or nothing (a subfolder of that name is searched for an empty
    path, which finds nothing).
  */
  lemma FindFileSingle(v: seq<LoadedDir>, d: nat, name: Name)
    requires d < |v|
    ensures FindFile(v, d, [name]) == FirstFile(v[d].files, name)
  {
    FileHitSingle(v[d].files, 0, name);
    assert v[d].files[0..] == v[d].files;
  }

  /** `s` is the last of `subs` named `name`. */
  lemma {:induction false} LastMatchIs(v: seq<LoadedDir>, subs: seq<nat>, name: Name, j: nat)
    requires j < |subs| && subs[j] < |v| && v[subs[j]].name == name
    requires forall k :: j < k < |subs| ==> subs[k] >= |v| || v[subs[k]].name != name
    ensures LastMatch(v, subs, name) == Some(subs[j])
    decreases |subs|
  {
    if j < |subs| - 1 {
      var front := subs[..|subs| - 1];
      assert front[j] == subs[j];
      assert forall k :: j < k < |front| ==> front[k] == subs[k];
      LastMatchIs(v, front, name, j);
    }
  }

  /**
    When no file of the folder settles the lookup, the last subfolder named
    like the first component gives the result, even when that result is
    nothing and an earlier subfolder of that name holds the file.
  */
  lemma LastSubfolderWins(v: seq<LoadedDir>, d: nat, path: Path, j: nat)
    requires d < |v| && path != [] && FileHit(v[d].files, 0, path).None?
    requires j < |v[d].subdirs| && v[d].subdirs[j] < |v| && v[v[d].subdirs[j]].name == path[0]
    requires forall k :: j < k < |v[d].subdirs| ==> v[d].subdirs[k] >= |v| || v[v[d].subdirs[k]].name != path[0]
    ensures FindFile(v, d, path) == FindFile(v, v[d].subdirs[j], path[1..])
  {
    LastMatchIs(v, v[d].subdirs, path[0], j);
  }

  // ---------------------------------------------------------------------
  // Lookups where the folders sit inside a larger arena
  // ---------------------------------------------------------------------

  /** Positions moved up by `base`. */
  function Shift(s: seq<nat>, base: nat): (r: seq<nat>)
    ensures |r| == |s| && forall k :: 0 <= k < |s| ==> r[k] == s[k] + base
  {
    seq(|s|, k requires 0 <= k < |s| => s[k] + base)
  }

  function Lift(o: Option<nat>, base: nat): Option<nat> {
    if o.None? then None else Some(o.value + base)
  }

  /** Folder `i` of `ds` sits at `base + i` of `v`, its subfolder positions moved up by `base`. */
  predicate Placed(v: seq<LoadedDir>, base: nat, ds: seq<LoadedDir>) {
    base + |ds| <= |v| &&
    forall i :: 0 <= i < |ds| ==> v[base + i] == LoadedDir(ds[i].name, Shift(ds[i].subdirs, base), ds[i].files)
  }

  lemma {:induction false} LastMatchShift(v: seq<LoadedDir>, base: nat, ds: seq<LoadedDir>, subs: seq<nat>, name: Name)
    requires Placed(v, base, ds) && forall k :: 0 <= k < |subs| ==> subs[k] < |ds|
    ensures LastMatch(v, Shift(subs, base), name) == Lift(LastMatch(ds, subs, name), base)
    decreases |subs|
  {
    if subs != [] {
      var init, last := subs[..|subs| - 1], subs[|subs| - 1];
      var sh := Shift(subs, base);
      assert v[base + last].name == ds[last].name;
      assert sh[|sh| - 1] == base + last;
      assert sh[..|sh| - 1] == Shift(init, base);
      if ds[last].name == name {
        assert LastMatch(ds, subs, name) == Some(last);
        assert LastMatch(v, sh, name) == Some(base + last);
      } else {
        LastMatchShift(v, base, ds, init, name);
        assert LastMatch(ds, subs, name) == LastMatch(ds, init, name);
        assert LastMatch(v, sh, name) == LastMatch(v, Shift(init, base), name);
      }
    }
  }

  /** A lookup in a placed archive is the lookup in the archive itself. */
  lemma {:induction false} PlacedFind(v: seq<LoadedDir>, base: nat, ds: seq<LoadedDir>, i: nat, path: Path)
    requires Placed(v, base, ds) && ClosedDirs(ds) && i < |ds|
    ensures FindFile(v, base + i, path) == FindFile(ds, i, path)
    decreases |path|
  {
    if path != [] {
      assert v[base + i] == LoadedDir(ds[i].name, Shift(ds[i].subdirs, base), ds[i].files);
      LastMatchShift(v, base, ds, ds[i].subdirs, path[0]);
      var m := LastMatch(ds, ds[i].subdirs, path[0]);
      if m.Some? {
        PlacedFind(v, base, ds, m.value, path[1..]);
      }
    }
  }

  /** `Rarc::GetFile` on an archive placed at `base` is `Rarc::GetFile` on the archive itself. */
  lemma PlacedArchiveFile(v: seq<LoadedDir>, base: nat, ds: seq<LoadedDir>, path: Path)
    requires Placed(v, base, ds) && ClosedDirs(ds)
    ensures ArchiveFile(v, Range(base, |ds|), path) == ArchiveFile(ds, Range(0, |ds|), path)
  {
    if ds != [] {
      var here := Range(base, |ds|);
      var there := Range(0, |ds|);
      assert here[0] == base + 0 && there[0] == 0;
      assert ArchiveFile(v, here, path) == FindFile(v, base + 0, Relative(path));
      assert ArchiveFile(ds, there, path) == FindFile(ds, 0, Relative(path));
      PlacedFind(v, base, ds, 0, Relative(path));
    }
  }

  lemma {:induction false} LastMatchGrown(v: seq<LoadedDir>, w: seq<LoadedDir>, subs: seq<nat>, name: Name)
    requires v <= w && forall k :: 0 <= k < |subs| ==> subs[k] < |v|
    ensures LastMatch(w, subs, name) == LastMatch(v, subs, name)
    decreases |subs|
  {
    if subs != [] {
      assert w[subs[|subs| - 1]] == v[subs[|subs| - 1]];
      LastMatchGrown(v, w, subs[..|subs| - 1], name);
    }
  }

  /** Folders added after the ones a lookup can reach do not change its result. */
  lemma {:induction false} GrownFind(v: seq<LoadedDir>, w: seq<LoadedDir>, d: nat, path: Path)
    requires v <= w && ClosedDirs(v) && d < |v|
    ensures FindFile(w, d, path) == FindFile(v, d, path)
    decreases |path|
  {
    if path != [] {
      assert w[d] == v[d];
      LastMatchGrown(v, w, v[d].subdirs, path[0]);
      var m := LastMatch(v, v[d].subdirs, path[0]);
      if m.Some? {
        GrownFind(v, w, m.value, path[1..]);
      }
    }
  }

  // ---------------------------------------------------------------------
  // The contents of an arena of objects
  // ---------------------------------------------------------------------

  function FileViewOf(f: FileRec): FileView {
    FileView(f.name, f.data)
  }

  /** Every file position the folders hold names one of the files. */
  predicate FilesIn(files: seq<FileRec>, folders: seq<FolderRec>) {
    forall i, k :: 0 <= i < |folders| && 0 <= k < |folders[i].files| ==> folders[i].files[k] < |files|
  }

  function FileViews(files: seq<FileRec>, ids: seq<nat>): seq<FileView>
    requires forall k :: 0 <= k < |ids| ==> ids[k] < |files|
  {
    seq(|ids|, k requires 0 <= k < |ids| => FileViewOf(files[ids[k]]))
  }

  /** What the folders hold, seen through names and bytes. */
  function View(files: seq<FileRec>, folders: seq<FolderRec>): seq<LoadedDir>
    requires FilesIn(files, folders)
  {
    seq(|folders|, i requires 0 <= i < |folders| =>
      LoadedDir(folders[i].name, folders[i].subs, FileViews(files, folders[i].files)))
  }

  /** The file a lookup returned, seen through its name and bytes. */
  function FileOf(files: seq<FileRec>, r: Option<nat>): Option<FileView> {
    if r.None? || r.value >= |files| then None else Some(FileViewOf(files[r.value]))
  }

  /** `gs` extends `fs` and keeps every file's name and bytes (a mount may change the rest). */
  predicate FilesGrow(fs: seq<FileRec>, gs: seq<FileRec>) {
    |fs| <= |gs| && forall i :: 0 <= i < |fs| ==> FileViewOf(gs[i]) == FileViewOf(fs[i])
  }

  lemma FilesGrowTrans(fs: seq<FileRec>, gs: seq<FileRec>, hs: seq<FileRec>)
    requires FilesGrow(fs, gs) && FilesGrow(gs, hs)
    ensures FilesGrow(fs, hs)
  {
  }

  /** Objects added to the arenas leave what the earlier folders hold as it was. */
  lemma ViewGrows(fs: seq<FileRec>, ds: seq<FolderRec>, gs: seq<FileRec>, es: seq<FolderRec>)
    requires FilesIn(fs, ds) && FilesIn(gs, es) && ds <= es && FilesGrow(fs, gs)
    ensures View(fs, ds) <= View(gs, es)
  {
    forall i | 0 <= i < |ds|
      ensures View(gs, es)[i] == View(fs, ds)[i]
    {
      assert es[i] == ds[i];
      assert FileViews(gs, ds[i].files) == FileViews(fs, ds[i].files);
    }
  }

  lemma ClosedView(files: seq<FileRec>, folders: seq<FolderRec>)
    requires FilesIn(files, folders) && Closed(folders)
    ensures ClosedDirs(View(files, folders))
  {
  }

  // ---------------------------------------------------------------------
  // Rarc::Load into objects (src/Archive.cpp:633-713)
  // ---------------------------------------------------------------------

  /**
    The last of the first `i` folders of `ds` that lists `j` as a
    subfolder: each link re-parents its target, so this is the parent
    `Load` leaves folder `j` with once it has read `i` folders.
  */
  function Linker(ds: seq<LoadedDir>, i: nat, j: nat): (r: Option<nat>)
    requires i <= |ds|
    ensures r.Some? ==> r.value < i && j in ds[r.value].subdirs
    ensures forall q :: (if r.Some? then r.value + 1 else 0) <= q < i ==> j !in ds[q].subdirs
  {
    if i == 0 then None
    else if j in ds[i - 1].subdirs then Some(i - 1)
    else Linker(ds, i - 1, j)
  }

  /** The records after folder `d` attached each of `targets` in turn (`Attach` once per target). */
  function Linked(fs: seq<FolderRec>, d: nat, targets: seq<nat>): (r: seq<FolderRec>)
    requires d < |fs| && forall k :: 0 <= k < |targets| ==> targets[k] < |fs|
    ensures |r| == |fs|
  {
    if targets == [] then fs
    else
      var g := Linked(fs, d, targets[..|targets| - 1]);
      var t := targets[|targets| - 1];
      var g1 := g[t := g[t].(parent := Some(d))];
      g1[d := g1[d].(subs := g1[d].subs + [t])]
  }

  /** Attaching `targets` to `d` appends them to `d`'s subfolders, makes `d` their parent and changes nothing else. */
  lemma {:induction false} LinkedAt(fs: seq<FolderRec>, d: nat, targets: seq<nat>, x: nat)
    requires d < |fs| && (forall k :: 0 <= k < |targets| ==> targets[k] < |fs|) && x < |fs|
    ensures Linked(fs, d, targets)[x] ==
              fs[x].(parent := if x in targets then Some(d) else fs[x].parent,
                     subs := if x == d then fs[d].subs + targets else fs[x].subs)
    decreases |targets|
  {
    if targets != [] {
      var front := targets[..|targets| - 1];
      LinkedAt(fs, d, front, x);
      LinkedAt(fs, d, front, d);
      assert targets == front + [targets[|targets| - 1]];
      assert x in targets <==> x in front || x == targets[|targets| - 1];
    }
  }

  lemma InShift(s: seq<nat>, base: nat, j: nat)
    ensures base + j in Shift(s, base) <==> j in s
  {
    if j in s {
      var k :| 0 <= k < |s| && s[k] == j;
      assert Shift(s, base)[k] == base + j;
    }
  }

  /** Folder `base + j` holds what directory `j` of the archive read: its name, its subfolders and its files' contents. */
  ghost predicate ReadInto(files: seq<FileRec>, folders: seq<FolderRec>, base: nat, ds: seq<LoadedDir>, j: nat)
    requires FilesIn(files, folders) && base + |ds| <= |folders| && j < |ds|
  {
    && folders[base + j].name == ds[j].name
    && folders[base + j].subs == Shift(ds[j].subdirs, base)
    && FileViews(files, folders[base + j].files) == ds[j].files
  }

  /** A folder as `Folder::Create` left it. */
  ghost predicate Blank(folders: seq<FolderRec>, x: nat)
    requires x < |folders|
  {
    folders[x].name == [] && folders[x].subs == [] && folders[x].files == []
  }

  /**
    The state of `Load` after reading the first `i` of the directories `ds`
    into the folders `base`, ..., `base + |ds| - 1` of archive `a`.
  */
  ghost predicate Loading(files: seq<FileRec>, folders: seq<FolderRec>, archives: seq<ArchiveRec>,
                          a: nat, base: nat, ds: seq<LoadedDir>, i: nat)
  {
    && i <= |ds| && FilesIn(files, folders) && base + |ds| == |folders|
    && a < |archives| && archives[a].dirs == Range(base, |ds|)
    && (forall x :: base <= x < |folders| ==>
          folders[x].owner == a && folders[x].parent == Lift(Linker(ds, i, x - base), base))
    && (forall j :: 0 <= j < i ==> ReadInto(files, folders, base, ds, j))
    && (forall x :: base + i <= x < |folders| ==> Blank(folders, x))
  }

  /** What `Linked` did to each record, as one fact per record. */
  ghost predicate LinkEffect(named: seq<FolderRec>, after: seq<FolderRec>, d: nat, targets: seq<nat>) {
    |after| == |named| && d < |named| &&
    forall x :: 0 <= x < |named| ==>
      after[x] == named[x].(parent := if x in targets then Some(d) else named[x].parent,
                            subs := if x == d then named[d].subs + targets else named[x].subs)
  }

  lemma LinkedEffect(named: seq<FolderRec>, d: nat, targets: seq<nat>)
    requires d < |named| && forall k :: 0 <= k < |targets| ==> targets[k] < |named|
    ensures LinkEffect(named, Linked(named, d, targets), d, targets)
  {
    forall x | 0 <= x < |named| {
      LinkedAt(named, d, targets, x);
    }
  }

  /** One directory read: named, given its files, and linked to its subfolders. */
  lemma LoadStep(files: seq<FileRec>, folders: seq<FolderRec>, archives: seq<ArchiveRec>,
                 a: nat, base: nat, ds: seq<LoadedDir>, i: nat,
                 files2: seq<FileRec>, ids: seq<nat>, named: seq<FolderRec>, folders2: seq<FolderRec>)
    requires Loading(files, folders, archives, a, base, ds, i) && i < |ds| && ClosedDirs(ds)
    requires files <= files2 && (forall k :: 0 <= k < |ids| ==> ids[k] < |files2|) && FileViews(files2, ids) == ds[i].files
    requires named == folders[base + i := folders[base + i].(name := ds[i].name, files := ids)]
    requires folders2 == Linked(named, base + i, Shift(ds[i].subdirs, base))
    ensures Loading(files2, folders2, archives, a, base, ds, i + 1)
    ensures folders2[..base] == folders[..base]
  {
    var targets := Shift(ds[i].subdirs, base);
    LinkedEffect(named, base + i, targets);
    LoadStepFiles(files, folders, archives, a, base, ds, i, files2, ids, named, folders2);
    LoadStepParents(folders, archives, a, base, ds, i, named, folders2);
    LoadStepRead(files, folders, archives, a, base, ds, i, files2, ids, named, folders2);
    LoadStepBlank(files, folders, archives, a, base, ds, i, named, folders2);
    assert forall x :: 0 <= x < base ==> x !in targets;
  }

  lemma LoadStepFiles(files: seq<FileRec>, folders: seq<FolderRec>, archives: seq<ArchiveRec>,
                      a: nat, base: nat, ds: seq<LoadedDir>, i: nat,
                      files2: seq<FileRec>, ids: seq<nat>, named: seq<FolderRec>, folders2: seq<FolderRec>)
    requires Loading(files, folders, archives, a, base, ds, i) && i < |ds|
    requires files <= files2 && (forall k :: 0 <= k < |ids| ==> ids[k] < |files2|)
    requires named == folders[base + i := folders[base + i].(name := ds[i].name, files := ids)]
    requires LinkEffect(named, folders2, base + i, Shift(ds[i].subdirs, base))
    ensures FilesIn(files2, folders2)
  {
    forall x, k | 0 <= x < |folders2| && 0 <= k < |folders2[x].files|
      ensures folders2[x].files[k] < |files2|
    {
      assert folders2[x].files == named[x].files;
    }
  }

  lemma LoadStepParents(folders: seq<FolderRec>, archives: seq<ArchiveRec>,
                        a: nat, base: nat, ds: seq<LoadedDir>, i: nat, named: seq<FolderRec>, folders2: seq<FolderRec>)
    requires i < |ds| && base + |ds| == |folders|
    requires forall x :: base <= x < |folders| ==>
               folders[x].owner == a && folders[x].parent == Lift(Linker(ds, i, x - base), base)
    requires |named| == |folders| && forall x :: 0 <= x < |folders| ==> named[x].parent == folders[x].parent && named[x].owner == folders[x].owner
    requires LinkEffect(named, folders2, base + i, Shift(ds[i].subdirs, base))
    ensures forall x :: base <= x < |folders2| ==>
              folders2[x].owner == a && folders2[x].parent == Lift(Linker(ds, i + 1, x - base), base)
  {
    forall x | base <= x < |folders2|
      ensures folders2[x].owner == a && folders2[x].parent == Lift(Linker(ds, i + 1, x - base), base)
    {
      InShift(ds[i].subdirs, base, x - base);
    }
  }

  lemma LoadStepRead(files: seq<FileRec>, folders: seq<FolderRec>, archives: seq<ArchiveRec>,
                     a: nat, base: nat, ds: seq<LoadedDir>, i: nat,
                     files2: seq<FileRec>, ids: seq<nat>, named: seq<FolderRec>, folders2: seq<FolderRec>)
    requires Loading(files, folders, archives, a, base, ds, i) && i < |ds|
    requires files <= files2 && (forall k :: 0 <= k < |ids| ==> ids[k] < |files2|) && FileViews(files2, ids) == ds[i].files
    requires named == folders[base + i := folders[base + i].(name := ds[i].name, files := ids)]
    requires LinkEffect(named, folders2, base + i, Shift(ds[i].subdirs, base))
    requires FilesIn(files2, folders2)
    ensures forall j :: 0 <= j < i + 1 ==> ReadInto(files2, folders2, base, ds, j)
  {
    var d := base + i;
    forall j | 0 <= j < i + 1
      ensures ReadInto(files2, folders2, base, ds, j)
    {
      if j < i {
        assert ReadInto(files, folders, base, ds, j);
        assert folders2[base + j].files == folders[base + j].files;
        assert FileViews(files2, folders[base + j].files) == FileViews(files, folders[base + j].files);
      } else {
        assert Blank(folders, d);
      }
    }
  }

  lemma LoadStepBlank(files: seq<FileRec>, folders: seq<FolderRec>, archives: seq<ArchiveRec>,
                      a: nat, base: nat, ds: seq<LoadedDir>, i: nat, named: seq<FolderRec>, folders2: seq<FolderRec>)
    requires Loading(files, folders, archives, a, base, ds, i) && i < |ds|
    requires |named| == |folders| && forall x :: 0 <= x < |folders| && x != base + i ==> named[x] == folders[x]
    requires LinkEffect(named, folders2, base + i, Shift(ds[i].subdirs, base))
    ensures forall x :: base + i + 1 <= x < |folders2| ==> Blank(folders2, x)
  {
    forall x | base + i + 1 <= x < |folders2|
      ensures Blank(folders2, x)
    {
      assert Blank(folders, x);
    }
  }

  /** Before the directory loop: `|ds|` blank folders of archive `a` at `base`, listed in `a`. */
  lemma LoadStart(files: seq<FileRec>, folders: seq<FolderRec>, archives: seq<ArchiveRec>,
                  a: nat, base: nat, ds: seq<LoadedDir>)
    requires FilesIn(files, folders) && base + |ds| == |folders|
    requires forall x :: base <= x < |folders| ==> folders[x] == FolderRec(a, None, [], [], [])
    requires a < |archives| && archives[a].dirs == Range(base, |ds|)
    ensures Loading(files, folders, archives, a, base, ds, 0)
  {
    forall x | base <= x < |folders|
      ensures Blank(folders, x)
    {
    }
  }

  /** Once every directory is read, the folders hold the archive: `ds` is placed at `base`. */
  lemma LoadPlaced(files: seq<FileRec>, folders: seq<FolderRec>, archives: seq<ArchiveRec>,
                   a: nat, base: nat, ds: seq<LoadedDir>)
    requires Loading(files, folders, archives, a, base, ds, |ds|)
    ensures Placed(View(files, folders), base, ds)
  {
    forall i | 0 <= i < |ds|
      ensures View(files, folders)[base + i] == LoadedDir(ds[i].name, Shift(ds[i].subdirs, base), ds[i].files)
    {
      assert ReadInto(files, folders, base, ds, i);
    }
  }
}
