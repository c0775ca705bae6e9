/**
  The object graph of an archive in memory (include/Archive.hpp,
  src/Archive.cpp), as values.

  The source links `File`, `Folder` and `Rarc` objects through shared
  pointers.  Here every object lives in an arena and is named by its
  position there: a folder's parent, subfolders and files, a file's mounted
  archive and an archive's directory list `mDirectories` are positions.
  The class `RarcTree.Heap` holds the three arenas and changes them; this
  module holds the records and the functions its contracts are stated with.
*/
module RarcObjects {
  import opened Util
  import opened Bytes
  import opened RarcFormat
  import opened RarcLoad

  /** A `File`: its name, its bytes (`mData`, `mSize`) and the archive mounted from it, if any. */
  datatype FileRec = FileRec(name: Name, data: Data, mounted: Option<nat>)

  /** A `Folder`: the archive it was created for, its parent, its name, its subfolders and its files. */
  datatype FolderRec = FolderRec(owner: nat, parent: Option<nat>, name: Name, subs: seq<nat>, files: seq<nat>)

  /** A `Rarc`: the byte order it saves in and its directory list. */
  datatype ArchiveRec = ArchiveRec(order: ByteOrder, dirs: seq<nat>)

  /** The name "/" a path starts with when it is absolute. */
  const SLASH: Name := [0x2F]

  // ---------------------------------------------------------------------
  // Links in range
  // ---------------------------------------------------------------------

  predicate FileLinks(f: FileRec, archives: nat) {
    f.mounted.Some? ==> f.mounted.value < archives
  }

  /** A folder's archive, parent and files are in range (its subfolders are covered by `Closed`). */
  predicate FolderLinks(d: FolderRec, archives: nat, folders: nat, files: nat) {
    && d.owner < archives
    && (d.parent.Some? ==> d.parent.value < folders)
    && (forall k :: 0 <= k < |d.files| ==> d.files[k] < files)
  }

  /** Every subfolder link names a folder of the arena. */
  predicate Closed(fs: seq<FolderRec>) {
    forall i, k :: 0 <= i < |fs| && 0 <= k < |fs[i].subs| ==> fs[i].subs[k] < |fs|
  }

  predicate ArchiveLinks(a: ArchiveRec, folders: nat) {
    forall k :: 0 <= k < |a.dirs| ==> a.dirs[k] < folders
  }

  // ---------------------------------------------------------------------
  // Searching and erasing
  // ---------------------------------------------------------------------

  /** The position of the first `x` in `s`, or `|s|` when there is none (`std::find` minus `begin()`). */
  function IndexIn<T(==)>(s: seq<T>, x: T): (i: nat)
    ensures i <= |s|
    ensures i < |s| ==> s[i] == x
    ensures forall k :: 0 <= k < i ==> s[k] != x
  {
    if s == [] then 0
    else if s[0] == x then 0
    else
      var j := IndexIn(s[1..], x);
      assert forall k :: 1 <= k < 1 + j ==> s[k] == s[1..][k - 1];
      1 + j
  }

  /** `erase(find(x))` when `x` occurs in `s`; `s` itself when it does not. */
  function RemoveFirst<T(==)>(s: seq<T>, x: T): seq<T> {
    var i := IndexIn(s, x);
    if i < |s| then s[..i] + s[i + 1..] else s
  }

  /**
    Erasing `x` is undone by putting it back where its first occurrence was:
    only that one element goes, the rest keep their order, and nothing
    changes when `x` is absent.
  */
  lemma RemoveFirstSpec<T>(s: seq<T>, x: T)
    ensures x !in s ==> RemoveFirst(s, x) == s
    ensures x in s ==> |RemoveFirst(s, x)| == |s| - 1
    ensures x in s ==> x !in s[..IndexIn(s, x)]
    ensures x in s ==> s == RemoveFirst(s, x)[..IndexIn(s, x)] + [x] + RemoveFirst(s, x)[IndexIn(s, x)..]
  {
    var i := IndexIn(s, x);
    if i < |s| {
      RemoveFirstFound(s, x, i);
    } else {
      assert x !in s by {
        forall k | 0 <= k < |s|
          ensures s[k] != x
        {
        }
      }
    }
  }

  lemma RemoveFirstFound<T>(s: seq<T>, x: T, i: nat)
    requires i == IndexIn(s, x) && i < |s|
    ensures x in s && |RemoveFirst(s, x)| == |s| - 1 && x !in s[..i]
    ensures s == RemoveFirst(s, x)[..i] + [x] + RemoveFirst(s, x)[i..]
  {
    var r := s[..i] + s[i + 1..];
    assert RemoveFirst(s, x) == r;
    assert x !in s[..i] by {
      forall j | 0 <= j < i
        ensures s[..i][j] != x
      {
        assert s[..i][j] == s[j];
      }
    }
    assert r[..i] == s[..i];
    assert r[i..] == s[i + 1..];
    SplitAt(s, i);
  }

  lemma SplitAt<T>(s: seq<T>, i: nat)
    requires i < |s|
    ensures s == s[..i] + [s[i]] + s[i + 1..]
  {
    var front, back := s[..i] + [s[i]], s[i + 1..];
    forall j | 0 <= j < |s|
      ensures (front + back)[j] == s[j]
    {
      if j <= i {
        assert (front + back)[j] == front[j];
      } else {
        assert (front + back)[j] == back[j - (i + 1)];
      }
    }
    assert front + back == s;
  }

  lemma PrefixBySlice<T>(s: seq<T>, t: seq<T>)
    requires |s| <= |t| && t[..|s|] == s
    ensures s <= t
  {
  }

  lemma PrefixTrans<T>(s: seq<T>, t: seq<T>, u: seq<T>)
    requires s <= t && t <= u
    ensures s <= u
  {
    assert u[..|s|] == t[..|s|];
  }

  /** A closed arena is layered at its own size: nothing has been copied yet. */
  lemma ClosedLayered(fs: seq<FolderRec>)
    requires Closed(fs)
    ensures Layered(fs, |fs|)
  {
  }

  // ---------------------------------------------------------------------
  // The shape of a folder tree
  // ---------------------------------------------------------------------

  /** A folder unfolded to some depth: its name, its file objects and the shapes of its subfolders in order. */
  datatype Tree = Node(name: Name, files: seq<nat>, kids: seq<Tree>) | Cut

  /** Folder `d` unfolded `n` levels deep (a folder graph may be cyclic, so the depth is bounded). */
  function Shape(fs: seq<FolderRec>, d: nat, n: nat): Tree
    decreases n, 0
  {
    if d >= |fs| then Cut
    else Node(fs[d].name, fs[d].files, if n == 0 then [] else Shapes(fs, fs[d].subs, n - 1))
  }

  function Shapes(fs: seq<FolderRec>, ds: seq<nat>, n: nat): (r: seq<Tree>)
    ensures |r| == |ds|
    decreases n, 1, |ds|
  {
    if ds == [] then [] else Shapes(fs, ds[..|ds| - 1], n) + [Shape(fs, ds[|ds| - 1], n)]
  }

  lemma {:induction false} ShapesAt(fs: seq<FolderRec>, ds: seq<nat>, n: nat, k: nat)
    requires k < |ds|
    ensures Shapes(fs, ds, n)[k] == Shape(fs, ds[k], n)
    decreases |ds|
  {
    if k < |ds| - 1 {
      ShapesAt(fs, ds[..|ds| - 1], n, k);
    }
  }

  /** Two folder lists have the same shapes when their folders have them pairwise. */
  lemma ShapesEqual(fs: seq<FolderRec>, ds: seq<nat>, gs: seq<FolderRec>, es: seq<nat>, n: nat)
    requires |ds| == |es|
    requires forall k :: 0 <= k < |ds| ==> Shape(fs, ds[k], n) == Shape(gs, es[k], n)
    ensures Shapes(fs, ds, n) == Shapes(gs, es, n)
  {
    forall k | 0 <= k < |ds|
      ensures Shapes(fs, ds, n)[k] == Shapes(gs, es, n)[k]
    {
      ShapesAt(fs, ds, n, k);
      ShapesAt(gs, es, n, k);
    }
  }

  /** The same record up to its parent, which is the only field re-linking changes in a folder it does not append to. */
  predicate Same(x: FolderRec, y: FolderRec) {
    x.owner == y.owner && x.name == y.name && x.subs == y.subs && x.files == y.files
  }

  /** `gs` keeps every record of `fs` up to parents, except possibly the one at `c`. */
  predicate KeepsBut(fs: seq<FolderRec>, gs: seq<FolderRec>, c: nat) {
    |fs| <= |gs| && forall i :: 0 <= i < |fs| && i != c ==> Same(fs[i], gs[i])
  }

  /** Folders from `lo` on that existed in `fs` keep their parents in `gs`. */
  predicate ParentsKept(fs: seq<FolderRec>, gs: seq<FolderRec>, lo: nat) {
    |fs| <= |gs| && forall i :: lo <= i < |fs| ==> gs[i].parent == fs[i].parent
  }

  lemma KeepsButTrans(fs: seq<FolderRec>, gs: seq<FolderRec>, hs: seq<FolderRec>, c: nat)
    requires KeepsBut(fs, gs, c) && KeepsBut(gs, hs, c)
    ensures KeepsBut(fs, hs, c)
  {
    forall i | 0 <= i < |fs| && i != c
      ensures Same(fs[i], hs[i])
    {
      assert Same(fs[i], gs[i]) && Same(gs[i], hs[i]);
    }
  }

  /** Folders of archives other than `a` keep their owner and their parent. */
  predicate OutsideKept(fs: seq<FolderRec>, gs: seq<FolderRec>, a: nat) {
    |fs| <= |gs| &&
    forall i :: 0 <= i < |fs| && fs[i].owner != a ==> gs[i].owner == fs[i].owner && gs[i].parent == fs[i].parent
  }

  /** Every folder from `lo` up to `hi` is in the directory list `dirs`. */
  predicate Registered(lo: nat, hi: nat, dirs: seq<nat>) {
    forall x :: lo <= x < hi ==> x in dirs
  }

  lemma RegisteredGrow(lo: nat, hi: nat, xs: seq<nat>, ys: seq<nat>)
    requires Registered(lo, hi, xs) && xs <= ys
    ensures Registered(lo, hi, ys)
  {
    forall x | lo <= x < hi
      ensures x in ys
    {
      assert x in xs;
      var k :| 0 <= k < |xs| && xs[k] == x;
      assert ys[k] == x;
    }
  }

  /** Only archive `a` changed, and only by directories added at the end of its list. */
  predicate ArchivesGrow(xs: seq<ArchiveRec>, ys: seq<ArchiveRec>, a: nat) {
    |xs| == |ys| &&
    forall i :: 0 <= i < |xs| ==>
      if i == a then ys[i].order == xs[i].order && xs[i].dirs <= ys[i].dirs else ys[i] == xs[i]
  }

  lemma ArchivesGrowTrans(xs: seq<ArchiveRec>, ys: seq<ArchiveRec>, zs: seq<ArchiveRec>, a: nat)
    requires ArchivesGrow(xs, ys, a) && ArchivesGrow(ys, zs, a)
    ensures ArchivesGrow(xs, zs, a)
  {
    forall i | 0 <= i < |xs| && i == a
      ensures xs[i].dirs <= zs[i].dirs
    {
      assert xs[i].dirs <= ys[i].dirs && ys[i].dirs <= zs[i].dirs;
      assert zs[i].dirs[..|xs[i].dirs|] == ys[i].dirs[..|xs[i].dirs|];
    }
  }

  /**
    Records below `lo` link only below `lo`; records from `lo` on link
    below `lo` or forward.  This is how `Copy` builds a new tree: each copy
    is created before the copies of its subfolders.
  */
  predicate Layered(fs: seq<FolderRec>, lo: nat) {
    && lo <= |fs|
    && forall i, k :: 0 <= i < |fs| && 0 <= k < |fs[i].subs| ==>
         if i < lo then fs[i].subs[k] < lo else fs[i].subs[k] < lo || i < fs[i].subs[k] < |fs|
  }

  /** Records that agree up to parents give every folder the same shape. */
  lemma {:induction false} ShapeSame(fs: seq<FolderRec>, gs: seq<FolderRec>, d: nat, n: nat)
    requires |fs| == |gs| && forall i :: 0 <= i < |fs| ==> Same(fs[i], gs[i])
    ensures Shape(gs, d, n) == Shape(fs, d, n)
    decreases n
  {
    if d < |fs| {
      assert Same(fs[d], gs[d]);
      if n > 0 {
        var ds := fs[d].subs;
        forall k | 0 <= k < |ds|
          ensures Shape(gs, ds[k], n - 1) == Shape(fs, ds[k], n - 1)
        {
          ShapeSame(fs, gs, ds[k], n - 1);
        }
      }
      NodeSame(fs, gs, d, n);
    }
  }

  /** A folder whose record and subfolder shapes agree has the same shape. */
  lemma NodeSame(fs: seq<FolderRec>, gs: seq<FolderRec>, d: nat, n: nat)
    requires d < |fs| && d < |gs| && Same(fs[d], gs[d])
    requires n > 0 ==> forall k :: 0 <= k < |fs[d].subs| ==>
               Shape(gs, fs[d].subs[k], n - 1) == Shape(fs, fs[d].subs[k], n - 1)
    ensures Shape(gs, d, n) == Shape(fs, d, n)
  {
    if n > 0 {
      var ds := fs[d].subs;
      ShapesEqual(gs, ds, fs, ds, n - 1);
      assert Shape(gs, d, n) == Node(fs[d].name, fs[d].files, Shapes(gs, ds, n - 1));
    }
  }

  /**
    A change to the record at `c` does not reach a folder whose links never
    lead to `c`: one below `lo`, or one created after `c`.
  */
  lemma {:induction false} ShapeFrame(fs: seq<FolderRec>, gs: seq<FolderRec>, lo: nat, c: nat, d: nat, n: nat)
    requires Closed(fs) && Layered(gs, lo) && KeepsBut(fs, gs, c) && lo <= c
    requires d < |fs| && (d < lo || c < d || |fs| <= c)
    ensures Shape(gs, d, n) == Shape(fs, d, n)
    decreases n
  {
    assert Same(fs[d], gs[d]);
    if n > 0 {
      var ds := fs[d].subs;
      forall k | 0 <= k < |ds|
        ensures Shape(gs, ds[k], n - 1) == Shape(fs, ds[k], n - 1)
      {
        FrameLink(fs, gs, lo, c, d, k);
        ShapeFrame(fs, gs, lo, c, ds[k], n - 1);
      }
    }
    NodeSame(fs, gs, d, n);
  }

  /** A link out of a folder the change at `c` does not reach leads to another such folder. */
  lemma FrameLink(fs: seq<FolderRec>, gs: seq<FolderRec>, lo: nat, c: nat, d: nat, k: nat)
    requires Closed(fs) && Layered(gs, lo) && KeepsBut(fs, gs, c) && lo <= c
    requires d < |fs| && (d < lo || c < d || |fs| <= c)
    requires k < |fs[d].subs|
    ensures var s := fs[d].subs[k]; s < |fs| && (s < lo || c < s || |fs| <= c)
  {
    assert Same(fs[d], gs[d]);
    assert gs[d].subs[k] == fs[d].subs[k];
  }

  /**
    `rank` covers the folders a copy into archive `a` descends through.
    Each folder in it lies below `lo`, and each subfolder of it that belongs
    to an archive other than `a` is in it too, at a lower rank.  `Copy`
    recurses exactly through such subfolders (one of `a` is attached
    itself), so the ranks bound the depth of the recursion.  Folders the
    copy never reaches are not constrained: they may link in cycles.
  */
  predicate Ranked(fs: seq<FolderRec>, a: nat, lo: nat, rank: map<nat, nat>) {
    forall i :: i in rank ==>
      && i < lo && i < |fs|
      && forall k :: 0 <= k < |fs[i].subs| && fs[i].subs[k] < |fs| && fs[fs[i].subs[k]].owner != a ==>
           fs[i].subs[k] in rank && rank[fs[i].subs[k]] < rank[i]
  }

  /** A change to records at or above `lo` keeps a ranking of folders below it. */
  lemma RankedKept(fs: seq<FolderRec>, gs: seq<FolderRec>, a: nat, lo: nat, rank: map<nat, nat>, c: nat)
    requires Ranked(fs, a, lo, rank) && Layered(fs, lo) && KeepsBut(fs, gs, c) && lo <= c
    ensures Ranked(gs, a, lo, rank)
  {
    forall i | i in rank
      ensures i < lo && i < |gs|
      ensures forall k :: 0 <= k < |gs[i].subs| && gs[i].subs[k] < |gs| && gs[gs[i].subs[k]].owner != a ==>
                gs[i].subs[k] in rank && rank[gs[i].subs[k]] < rank[i]
    {
      assert Same(fs[i], gs[i]);
      forall k | 0 <= k < |gs[i].subs| && gs[i].subs[k] < |gs| && gs[gs[i].subs[k]].owner != a
        ensures gs[i].subs[k] in rank && rank[gs[i].subs[k]] < rank[i]
      {
        var s := fs[i].subs[k];
        assert s < lo;
        assert Same(fs[s], gs[s]);
      }
    }
  }

  /**
    A ranking asks nothing of the folders a copy does not reach: folder 1 of
    archive 1, which has no subfolders, can be copied into archive 0 even
    though folder 0 of archive 1 is its own subfolder.
  */
  lemma RankedDespiteCycle()
    ensures var fs := [FolderRec(1, Some(0), [], [0], []), FolderRec(1, None, [], [], [])];
            && Closed(fs) && fs[0].subs[0] == 0
            && Ranked(fs, 0, 2, map[1 := 0]) && Layered(fs, 2)
  {
  }

  // ---------------------------------------------------------------------
  // The shape of a copy, one step at a time
  // ---------------------------------------------------------------------

  /** The record at `c` of `gs` put back as it was in `fs`: still closed. */
  lemma RestoreClosed(fs: seq<FolderRec>, gs: seq<FolderRec>, c: nat)
    requires Closed(fs) && Closed(gs) && c < |fs| <= |gs|
    ensures Closed(gs[c := fs[c]])
  {
    var hs := gs[c := fs[c]];
    forall i, k | 0 <= i < |hs| && 0 <= k < |hs[i].subs|
      ensures hs[i].subs[k] < |hs|
    {
      if i == c {
        assert hs[i].subs[k] == fs[c].subs[k];
      } else {
        assert hs[i].subs[k] == gs[i].subs[k];
      }
    }
  }

  /**
    One pass of the loop in `Copy`: the copy `c` gained subfolder `x` for
    the source's subfolder `subs[k]` (`x` is that folder itself when it was
    moved, or a new copy of it), and the subfolders attached before keep
    their shapes.
  */
  lemma CopyStep(f0: seq<FolderRec>, before: seq<FolderRec>, after: seq<FolderRec>, lo: nat, c: nat,
                 subs: seq<nat>, k: nat, x: nat)
    requires Closed(f0) && Closed(before) && Closed(after)
    requires Layered(before, lo) && Layered(after, lo) && lo <= c < |before|
    requires KeepsBut(f0, before, c) && KeepsBut(before, after, c)
    requires k < |subs| && subs[k] < lo && subs[k] < |f0|
    requires |before[c].subs| == k && after[c].subs == before[c].subs + [x] && x < |after|
    requires forall j, n: nat :: 0 <= j < k ==> Shape(before, before[c].subs[j], n) == Shape(f0, subs[j], n)
    requires x == subs[k] || (|before| <= x && forall n: nat :: Shape(after[c := before[c]], x, n) == Shape(before, subs[k], n))
    ensures forall j, n: nat :: 0 <= j <= k ==> Shape(after, after[c].subs[j], n) == Shape(f0, subs[j], n)
  {
    KeepsButTrans(f0, before, after, c);
    assert after[c].subs[..k] == before[c].subs;
    CopyStepKept(f0, before, after, lo, c, subs, k);
    forall j, n: nat | 0 <= j <= k
      ensures Shape(after, after[c].subs[j], n) == Shape(f0, subs[j], n)
    {
      if j == k {
        assert after[c].subs[j] == x;
        CopyStepNew(f0, before, after, lo, c, subs[k], x, n);
      }
    }
  }

  /** The subfolders attached before this pass keep their shapes. */
  lemma CopyStepKept(f0: seq<FolderRec>, before: seq<FolderRec>, after: seq<FolderRec>, lo: nat, c: nat,
                     subs: seq<nat>, k: nat)
    requires Closed(before) && Layered(before, lo) && Layered(after, lo) && lo <= c < |before|
    requires KeepsBut(before, after, c) && k <= |subs|
    requires |before[c].subs| == k && k <= |after[c].subs| && after[c].subs[..k] == before[c].subs
    requires forall j, n: nat :: 0 <= j < k ==> Shape(before, before[c].subs[j], n) == Shape(f0, subs[j], n)
    ensures forall j, n: nat :: 0 <= j < k ==> Shape(after, after[c].subs[j], n) == Shape(f0, subs[j], n)
  {
    forall j, n: nat | 0 <= j < k
      ensures Shape(after, after[c].subs[j], n) == Shape(f0, subs[j], n)
    {
      assert after[c].subs[j] == after[c].subs[..k][j];
      ShapeFrame(before, after, lo, c, before[c].subs[j], n);
    }
  }

  /** The subfolder attached in this pass has the shape of the source's. */
  lemma CopyStepNew(f0: seq<FolderRec>, before: seq<FolderRec>, after: seq<FolderRec>, lo: nat, c: nat,
                    s: nat, x: nat, n: nat)
    requires Closed(f0) && Closed(before) && Closed(after)
    requires Layered(before, lo) && Layered(after, lo) && lo <= c < |before|
    requires KeepsBut(f0, before, c) && KeepsBut(before, after, c) && KeepsBut(f0, after, c)
    requires s < lo && s < |f0| && x < |after|
    requires x == s || (|before| <= x && forall n: nat :: Shape(after[c := before[c]], x, n) == Shape(before, s, n))
    ensures Shape(after, x, n) == Shape(f0, s, n)
  {
    if x == s {
      ShapeFrame(f0, after, lo, c, s, n);
    } else {
      ShapeFrame(f0, before, lo, c, s, n);
      RestoreClosed(before, after, c);
      ShapeFrame(after[c := before[c]], after, lo, c, x, n);
    }
  }

  /**
    The end of `Copy`: a folder with `src`'s name and files whose
    subfolders have, in order, the shapes of `src`'s subfolders has the
    shape of `src`.
  */
  lemma CopyDone(f0: seq<FolderRec>, fs: seq<FolderRec>, c: nat, src: nat)
    requires c < |fs| && src < |f0|
    requires fs[c].name == f0[src].name && fs[c].files == f0[src].files && |fs[c].subs| == |f0[src].subs|
    requires forall j, n: nat :: 0 <= j < |fs[c].subs| ==> Shape(fs, fs[c].subs[j], n) == Shape(f0, f0[src].subs[j], n)
    ensures forall n: nat :: Shape(fs, c, n) == Shape(f0, src, n)
  {
    forall n: nat
      ensures Shape(fs, c, n) == Shape(f0, src, n)
    {
      if n > 0 {
        forall j | 0 <= j < |fs[c].subs|
          ensures Shape(fs, fs[c].subs[j], n - 1) == Shape(f0, f0[src].subs[j], n - 1)
        {
        }
      }
      CopyDoneAt(f0, fs, c, src, n);
    }
  }

  lemma CopyDoneAt(f0: seq<FolderRec>, fs: seq<FolderRec>, c: nat, src: nat, n: nat)
    requires c < |fs| && src < |f0|
    requires fs[c].name == f0[src].name && fs[c].files == f0[src].files && |fs[c].subs| == |f0[src].subs|
    requires n > 0 ==>
               forall j :: 0 <= j < |fs[c].subs| ==> Shape(fs, fs[c].subs[j], n - 1) == Shape(f0, f0[src].subs[j], n - 1)
    ensures Shape(fs, c, n) == Shape(f0, src, n)
  {
    if n > 0 {
      ShapesEqual(fs, fs[c].subs, f0, f0[src].subs, n - 1);
      assert Shape(fs, c, n) == Node(fs[c].name, fs[c].files, Shapes(fs, fs[c].subs, n - 1));
      assert Shape(f0, src, n) == Node(f0[src].name, f0[src].files, Shapes(f0, f0[src].subs, n - 1));
    }
  }
}
