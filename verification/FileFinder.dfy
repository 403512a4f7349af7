/**
 src/FileFinder.cc: the walk over a directory tree, and its use in `collect_files` of src/main.cc. The file
 system is a finite map from directory paths, ending in a slash, to what `readdir` lists there.
 */
module FileFinder {
  import opened Utilities
  import AppManagers

  datatype DirEntry = DirEntry(name: string, inode: int)

  type FileSystem = map<string, seq<DirEntry>>

  predicate Hidden(name: string) {
    name != "" && name[0] == '.'
  }

  ghost predicate WellFormed(fs: FileSystem) {
    forall dir <- fs ::
      && dir != "" && dir[|dir| - 1] == '/'
      && (forall e <- fs[dir] :: e.name != "" && '/' !in e.name)
      && DistinctNames(fs[dir])
  }

  /** `is_directory` */
  predicate IsDirectory(fs: FileSystem, path: string) {
    path + "/" in fs
  }

  /** A file or directory directly in `dir` that the walk shows. */
  predicate Shown(fs: FileSystem, dir: string, name: string) {
    dir in fs && !Hidden(name) && exists e <- fs[dir] :: e.name == name
  }

  /** A directory that is reached from the root through shown names only. */
  ghost predicate Visible(fs: FileSystem, root: string, dir: string)
    decreases |dir|
  {
    dir in fs && (dir == root || exists parent, name :: IsChild(fs, parent, name, dir) && Visible(fs, root, parent))
  }

  predicate IsChild(fs: FileSystem, parent: string, name: string, dir: string) {
    Shown(fs, parent, name) && |parent| < |dir| && dir == parent + name + "/"
  }

  /** What the walk has to yield: every entry without a hidden component below the root. */
  ghost predicate Below(fs: FileSystem, root: string, path: string) {
    exists dir, name :: IsEntry(fs, root, dir, name, path)
  }

  ghost predicate IsEntry(fs: FileSystem, root: string, dir: string, name: string, path: string) {
    Visible(fs, root, dir) && Shown(fs, dir, name) && path == dir + name
  }

  /** A path names its directory and its last component. */
  lemma OneParent(dir1: string, name1: string, dir2: string, name2: string)
    requires dir1 != "" && dir1[|dir1| - 1] == '/' && '/' !in name1
    requires dir2 != "" && dir2[|dir2| - 1] == '/' && '/' !in name2
    requires dir1 + name1 == dir2 + name2
    ensures dir1 == dir2 && name1 == name2
  {
    var path := dir1 + name1;
    forall i | |dir1| <= i < |path| ensures path[i] != '/' {
      assert path[i] == name1[i - |dir1|];
    }
    forall i | |dir2| <= i < |path| ensures path[i] != '/' {
      assert path[i] == name2[i - |dir2|];
    }
    assert path[|dir1| - 1] == '/' && (dir2 + name2)[|dir2| - 1] == '/';
    assert |dir1| == |dir2|;
    assert dir1 == path[..|dir1|] && dir2 == (dir2 + name2)[..|dir2|];
    assert name1 == path[|dir1|..] && name2 == (dir2 + name2)[|dir2|..];
  }

  ghost predicate SortedByInode(s: seq<DirEntry>) {
    forall i, j :: 0 <= i < j < |s| ==> s[i].inode >= s[j].inode
  }

  /** The entries of `readdir` that are not hidden. */
  method ReadVisible(listing: seq<DirEntry>) returns (r: seq<DirEntry>)
    requires forall i, j :: 0 <= i < j < |listing| ==> listing[i].name != listing[j].name
    ensures forall e :: e in r <==> e in listing && !Hidden(e.name)
    ensures forall i, j :: 0 <= i < j < |r| ==> r[i].name != r[j].name
  {
    r := [];
    for k := 0 to |listing|
      invariant forall e :: e in r <==> e in listing[..k] && !Hidden(e.name)
      invariant forall i, j :: 0 <= i < j < |r| ==> r[i].name != r[j].name
      invariant forall i :: 0 <= i < |r| ==> exists m :: 0 <= m < k && listing[m] == r[i]
    {
      assert listing[..k + 1] == listing[..k] + [listing[k]];
      if !Hidden(listing[k].name) {
        r := r + [listing[k]];
      }
    }
    assert listing[..|listing|] == listing;
  }

  ghost predicate DistinctNames(s: seq<DirEntry>) {
    forall i, j :: 0 <= i < j < |s| ==> s[i].name != s[j].name
  }

  /** `std::sort` by descending inode. */
  method SortEntries(entries: seq<DirEntry>) returns (r: seq<DirEntry>)
    requires DistinctNames(entries)
    ensures SortedByInode(r) && DistinctNames(r)
    ensures forall e :: e in r <==> e in entries
  {
    r := [];
    for k := 0 to |entries|
      invariant SortedByInode(r) && DistinctNames(r)
      invariant forall e :: e in r <==> e in entries[..k]
    {
      var x := entries[k];
      var at := 0;
      while at < |r| && r[at].inode >= x.inode
        invariant at <= |r|
        invariant forall i :: 0 <= i < at ==> r[i].inode >= x.inode
      {
        at := at + 1;
      }
      assert entries[..k + 1] == entries[..k] + [x];
      forall i | 0 <= i < |r| ensures r[i].name != x.name {
        assert r[i] in r && r[i] in entries[..k];
      }
      ElementsAfterInsert(r, at, x);
      r := InsertAt(r, at, x);
    }
    assert entries[..|entries|] == entries;
  }

  method ReadDirectory(listing: seq<DirEntry>) returns (r: seq<DirEntry>)
    requires DistinctNames(listing)
    ensures SortedByInode(r) && DistinctNames(r)
    ensures forall e :: e in r <==> e in listing && !Hidden(e.name)
  {
    var visible := ReadVisible(listing);
    r := SortEntries(visible);
  }

  // ------------------------------------------------------------------------------------------
  // The state of the walk
  // ------------------------------------------------------------------------------------------

  /** The directories opened so far, the stack, the entries still pending in the open directory, the paths yielded. */
  datatype Walk = Walk(
    visited: set<string>,
    stack: seq<string>,
    entries: seq<DirEntry>,
    curdir: string,
    yielded: seq<string>
  )

  ghost predicate Known(w: Walk, dir: string) {
    dir in w.visited || dir in w.stack
  }

  ghost predicate Pending(w: Walk, dir: string, name: string) {
    dir == w.curdir && exists e <- w.entries :: e.name == name
  }

  /** The entry has been yielded. */
  ghost predicate Passed(fs: FileSystem, w: Walk, dir: string, name: string) {
    dir in w.visited && Shown(fs, dir, name) && !Pending(w, dir, name)
  }

  ghost predicate StackWaits(fs: FileSystem, w: Walk) {
    && w.visited <= fs.Keys
    && Distinct(w.stack) && forall dir <- w.stack :: dir in fs && dir !in w.visited
  }

  ghost predicate EntriesWait(fs: FileSystem, w: Walk) {
    && (w.entries != [] ==> w.curdir in w.visited)
    && DistinctNames(w.entries)
    && forall e <- w.entries :: Shown(fs, w.curdir, e.name)
  }

  ghost predicate KnownAreVisible(fs: FileSystem, root: string, w: Walk) {
    && Known(w, root)
    && (forall dir {:trigger Reached(fs, root, dir)} | Known(w, dir) :: Reached(fs, root, dir))
    && (forall dir {:trigger FromYielded(root, w, dir)} | Known(w, dir) :: FromYielded(root, w, dir))
  }

  ghost predicate Reached(fs: FileSystem, root: string, dir: string) {
    Visible(fs, root, dir) && |root| <= |dir|
  }

  /** Only the root is known without having been yielded. */
  ghost predicate FromYielded(root: string, w: Walk, dir: string) {
    dir == root || exists p <- w.yielded :: dir == p + "/"
  }

  /** Every directory that has been yielded is known. */
  ghost predicate Closed(fs: FileSystem, w: Walk) {
    forall dir, name | Passed(fs, w, dir, name) && IsDirectory(fs, dir + name) :: Known(w, dir + name + "/")
  }

  ghost predicate YieldedPath(fs: FileSystem, w: Walk, path: string) {
    exists dir, name :: Passed(fs, w, dir, name) && path == dir + name
  }

  ghost predicate YieldedOnce(fs: FileSystem, w: Walk) {
    && Distinct(w.yielded)
    && forall path {:trigger YieldedPath(fs, w, path)} :: path in w.yielded <==> YieldedPath(fs, w, path)
  }

  ghost predicate Inv(fs: FileSystem, root: string, w: Walk) {
    && WellFormed(fs) && root in fs
    && StackWaits(fs, w) && EntriesWait(fs, w) && KnownAreVisible(fs, root, w) && Closed(fs, w) && YieldedOnce(fs, w)
  }

  // ---- opening a directory ------------------------------------------------------------------

  ghost predicate Opens(fs: FileSystem, w: Walk, w': Walk) {
    && w.entries == [] && w.stack != []
    && w'.curdir == w.stack[|w.stack| - 1] && w'.stack == w.stack[..|w.stack| - 1]
    && w'.visited == w.visited + {w'.curdir} && w'.yielded == w.yielded
    && w'.curdir in fs && DistinctNames(w'.entries)
    && forall e :: e in w'.entries <==> e in fs[w'.curdir] && !Hidden(e.name)
  }

  lemma OpeningMovesNothing(fs: FileSystem, w: Walk, w': Walk)
    requires Opens(fs, w, w') && StackWaits(fs, w)
    ensures StackWaits(fs, w') && EntriesWait(fs, w')
    ensures forall dir :: Known(w', dir) <==> Known(w, dir)
    ensures forall dir, name :: Passed(fs, w', dir, name) <==> Passed(fs, w, dir, name)
  {
    var top := w'.curdir;
    assert w.stack == w'.stack + [top];
    assert top in w.stack && top !in w.visited;
    forall dir, name ensures Passed(fs, w', dir, name) <==> Passed(fs, w, dir, name) {
      if dir == top && Shown(fs, top, name) {
        var e :| e in fs[top] && e.name == name;
        assert e in w'.entries;
      }
    }
  }

  lemma OpeningKeepsInv(fs: FileSystem, root: string, w: Walk, w': Walk)
    requires Inv(fs, root, w) && Opens(fs, w, w')
    ensures Inv(fs, root, w')
  {
    OpeningMovesNothing(fs, w, w');
    forall dir | Known(w', dir) ensures Reached(fs, root, dir) && FromYielded(root, w', dir) {
      assert Reached(fs, root, dir) && FromYielded(root, w, dir);
    }
    forall path ensures YieldedPath(fs, w', path) <==> YieldedPath(fs, w, path) {
      if YieldedPath(fs, w, path) {
        var dir, name :| Passed(fs, w, dir, name) && path == dir + name;
        assert Passed(fs, w', dir, name);
      }
      if YieldedPath(fs, w', path) {
        var dir, name :| Passed(fs, w', dir, name) && path == dir + name;
        assert Passed(fs, w, dir, name);
      }
    }
  }

  // ---- yielding an entry --------------------------------------------------------------------

  ghost predicate Yields(fs: FileSystem, w: Walk, w': Walk) {
    && w.entries != []
    && w'.entries == w.entries[..|w.entries| - 1]
    && w'.visited == w.visited && w'.curdir == w.curdir
    && var path := w.curdir + w.entries[|w.entries| - 1].name;
       && w'.yielded == w.yielded + [path]
       && w'.stack == (if IsDirectory(fs, path) then w.stack + [path + "/"] else w.stack)
  }

  ghost function AfterYield(fs: FileSystem, w: Walk): (w': Walk)
    requires w.entries != []
  {
    var path := w.curdir + w.entries[|w.entries| - 1].name;
    Walk(w.visited, if IsDirectory(fs, path) then w.stack + [path + "/"] else w.stack, w.entries[..|w.entries| - 1],
         w.curdir, w.yielded + [path])
  }

  lemma AfterYieldIs(fs: FileSystem, w: Walk, path: string, stack: seq<string>, entries: seq<DirEntry>)
    requires w.entries != [] && path == w.curdir + w.entries[|w.entries| - 1].name
    requires entries == w.entries[..|w.entries| - 1]
    requires stack == if IsDirectory(fs, path) then w.stack + [path + "/"] else w.stack
    ensures AfterYield(fs, w) == Walk(w.visited, stack, entries, w.curdir, w.yielded + [path])
  {
  }

  /** Exactly the last pending entry becomes a passed one. */
  lemma YieldingPassesOne(fs: FileSystem, w: Walk, w': Walk)
    requires Yields(fs, w, w') && EntriesWait(fs, w)
    ensures var name := w.entries[|w.entries| - 1].name;
            && Passed(fs, w', w.curdir, name) && !Passed(fs, w, w.curdir, name)
            && forall d, n :: Passed(fs, w', d, n) <==> Passed(fs, w, d, n) || (d == w.curdir && n == name)
  {
    var n := |w.entries| - 1;
    var last := w.entries[n];
    assert last in w.entries && w.entries == w'.entries + [last];
    forall e <- w'.entries ensures e.name != last.name {
      var k :| 0 <= k < n && w'.entries[k] == e;
      assert w.entries[k].name != w.entries[n].name;
    }
    assert forall e :: e in w.entries <==> e in w'.entries || e == last;
  }

  /** The yielded path is new. */
  lemma YieldedPathIsNew(fs: FileSystem, w: Walk, dir: string, name: string)
    requires WellFormed(fs) && StackWaits(fs, w) && YieldedOnce(fs, w)
    requires dir in w.visited && Shown(fs, dir, name) && !Passed(fs, w, dir, name)
    ensures dir + name !in w.yielded
  {
    if YieldedPath(fs, w, dir + name) {
      var d, n :| Passed(fs, w, d, n) && dir + name == d + n;
      ShownIsPlain(fs, dir, name);
      ShownIsPlain(fs, d, n);
      OneParent(dir, name, d, n);
    }
  }

  lemma ShownIsPlain(fs: FileSystem, dir: string, name: string)
    requires WellFormed(fs) && Shown(fs, dir, name)
    ensures name != "" && '/' !in name && dir != "" && dir[|dir| - 1] == '/'
  {
  }

  /** So the directory that it may be is not known yet. */
  lemma YieldedDirectoryIsNew(fs: FileSystem, root: string, w: Walk, dir: string, name: string)
    requires KnownAreVisible(fs, root, w) && WellFormed(fs)
    requires dir in w.visited && Shown(fs, dir, name) && dir + name !in w.yielded
    ensures !Known(w, dir + name + "/")
  {
    ShownIsPlain(fs, dir, name);
    var child := dir + name + "/";
    assert Known(w, dir) && Reached(fs, root, dir) && |root| < |child|;
    assert Known(w, child) ==> FromYielded(root, w, child);
    forall p <- w.yielded ensures child != p + "/" {
      assert child[..|child| - 1] == dir + name && (p + "/")[..|p|] == p;
    }
  }

  lemma YieldingKeepsInv(fs: FileSystem, root: string, w: Walk)
    requires Inv(fs, root, w) && w.entries != []
    ensures Inv(fs, root, AfterYield(fs, w))
  {
    var w' := AfterYield(fs, w);
    var dir, last := w.curdir, w.entries[|w.entries| - 1];
    var name, path := last.name, dir + last.name;
    assert last in w.entries && w.entries == w'.entries + [last];
    YieldingPassesOne(fs, w, w');
    YieldedPathIsNew(fs, w, dir, name);
    YieldedDirectoryIsNew(fs, root, w, dir, name);
    assert EntriesWait(fs, w');
    YieldingKeepsKnown(fs, root, w, w');
    YieldingKeepsYielded(fs, w, w');
    forall d, n | Passed(fs, w', d, n) && IsDirectory(fs, d + n) ensures Known(w', d + n + "/") {
      if d == dir && n == name {
        assert path + "/" in w'.stack;
      } else {
        assert Known(w, d + n + "/");
      }
    }
  }

  /** A directory that was known before the step. */
  lemma OldDirectoryStaysKnown(fs: FileSystem, root: string, w: Walk, w': Walk, dir: string)
    requires KnownAreVisible(fs, root, w) && Known(w, dir) && w.yielded <= w'.yielded
    ensures Reached(fs, root, dir) && FromYielded(root, w', dir)
  {
    assert Reached(fs, root, dir) && FromYielded(root, w, dir);
    if dir != root {
      var p :| p in w.yielded && dir == p + "/";
      assert p in w'.yielded;
    }
  }

  /** The directory that the step has put on the stack. */
  lemma NewDirectoryIsReached(fs: FileSystem, root: string, w: Walk, w': Walk, dir: string, name: string)
    requires WellFormed(fs) && Reached(fs, root, dir) && Shown(fs, dir, name) && dir + name + "/" in fs
    requires dir + name in w'.yielded
    ensures Reached(fs, root, dir + name + "/") && FromYielded(root, w', dir + name + "/")
  {
    ShownIsPlain(fs, dir, name);
    assert IsChild(fs, dir, name, dir + name + "/");
  }

  lemma YieldingKeepsKnown(fs: FileSystem, root: string, w: Walk, w': Walk)
    requires KnownAreVisible(fs, root, w) && StackWaits(fs, w) && EntriesWait(fs, w) && Yields(fs, w, w')
    requires WellFormed(fs)
    requires !Known(w, w.curdir + w.entries[|w.entries| - 1].name + "/")
    ensures KnownAreVisible(fs, root, w') && StackWaits(fs, w')
  {
    var dir, last := w.curdir, w.entries[|w.entries| - 1];
    var path := dir + last.name;
    assert last in w.entries;
    OldDirectoryStaysKnown(fs, root, w, w', dir);
    assert path in w'.yielded;
    forall d | Known(w', d) ensures Reached(fs, root, d) && FromYielded(root, w', d) {
      if Known(w, d) {
        OldDirectoryStaysKnown(fs, root, w, w', d);
      } else {
        assert d == path + "/" && IsDirectory(fs, path);
        NewDirectoryIsReached(fs, root, w, w', dir, last.name);
      }
    }
  }

  lemma YieldingKeepsYielded(fs: FileSystem, w: Walk, w': Walk)
    requires YieldedOnce(fs, w) && EntriesWait(fs, w) && Yields(fs, w, w')
    requires w.curdir + w.entries[|w.entries| - 1].name !in w.yielded
    ensures YieldedOnce(fs, w')
  {
    YieldingPassesOne(fs, w, w');
    var name := w.entries[|w.entries| - 1].name;
    forall path ensures path in w'.yielded <==> YieldedPath(fs, w', path) {
      if path in w.yielded {
        assert YieldedPath(fs, w, path);
        var d, n :| Passed(fs, w, d, n) && path == d + n;
        assert Passed(fs, w', d, n);
      }
      if YieldedPath(fs, w', path) && path != w.curdir + name {
        var d, n :| Passed(fs, w', d, n) && path == d + n;
        assert Passed(fs, w, d, n);
        assert YieldedPath(fs, w, path);
      }
    }
  }

  // ---- the end ------------------------------------------------------------------------------

  /** When the stack and the open directory are exhausted, every visible directory has been opened. */
  lemma {:induction false} AllVisited(fs: FileSystem, root: string, w: Walk, dir: string)
    requires Inv(fs, root, w) && w.stack == [] && w.entries == [] && Visible(fs, root, dir)
    ensures dir in w.visited
    decreases |dir|
  {
    if dir != root {
      var parent, name :| IsChild(fs, parent, name, dir) && Visible(fs, root, parent);
      AllVisited(fs, root, w, parent);
      assert Passed(fs, w, parent, name);
      assert IsDirectory(fs, parent + name);
    }
  }

  /** The finished walk has yielded exactly the entries below the root, each once. */
  lemma FinishedWalkIsComplete(fs: FileSystem, root: string, w: Walk)
    requires Inv(fs, root, w) && w.stack == [] && w.entries == []
    ensures Distinct(w.yielded)
    ensures forall path :: path in w.yielded <==> Below(fs, root, path)
  {
    forall path ensures path in w.yielded <==> Below(fs, root, path) {
      assert path in w.yielded <==> YieldedPath(fs, w, path);
      if path in w.yielded {
        var dir, name :| Passed(fs, w, dir, name) && path == dir + name;
        assert Known(w, dir) && Reached(fs, root, dir);
        assert IsEntry(fs, root, dir, name, path);
      }
      if Below(fs, root, path) {
        var dir, name :| IsEntry(fs, root, dir, name, path);
        AllVisited(fs, root, w, dir);
        assert Passed(fs, w, dir, name);
      }
    }
  }

  // ------------------------------------------------------------------------------------------
  // The class
  // ------------------------------------------------------------------------------------------

  class FileFinder {
    const fs: FileSystem
    const root: string
    var done: bool
    var dirstack: seq<string>
    var direntries: seq<DirEntry>
    var curdir: string
    var curpath: string
    var curisdir: bool
    /** The same state with its history. */
    ghost var walk: Walk

    ghost predicate Valid()
      reads this
    {
      && walk.stack == dirstack && walk.entries == direntries && walk.curdir == curdir
      && Inv(fs, root, walk)
      && (done ==> dirstack == [] && direntries == [])
    }

    constructor (fs: FileSystem, path: string)
      requires WellFormed(fs) && path in fs
      ensures Valid() && this.fs == fs && root == path && walk.yielded == [] && !done
    {
      this.fs, root := fs, path;
      done := false;
      dirstack := [path];
      direntries := [];
      curdir, curpath, curisdir := "", "", false;
      walk := Walk({}, [path], [], "", []);
    }

    /** The rest of the walk has become smaller. */
    twostate predicate Progress()
      reads this
    {
      fs.Keys - walk.visited < fs.Keys - old(walk.visited)
      || (walk.visited == old(walk.visited) && |direntries| < |old(direntries)|)
    }

    /** `operator++` */
    method Next()
      requires Valid()
      modifies this
      ensures Valid()
      ensures old(done) ==> done
      ensures done ==> walk.yielded == old(walk.yielded)
      ensures !done ==> walk.yielded == old(walk.yielded) + [curpath] && (curisdir <==> IsDirectory(fs, curpath))
      ensures !done ==> Progress()
      decreases fs.Keys - walk.visited, |direntries|
    {
      if direntries == [] {
        OpenDir();
        if done {
          return;
        }
        Next();
      } else {
        Yield();
      }
    }

    /** `opendir`, and reading and sorting the directory. */
    method OpenDir()
      requires Valid() && direntries == []
      modifies this
      ensures Valid() && walk.yielded == old(walk.yielded)
      ensures done <==> old(dirstack) == []
      ensures !done ==> !old(done) && fs.Keys - walk.visited < fs.Keys - old(walk.visited)
    {
      if dirstack == [] {
        done := true;
        return;
      }
      var n := |dirstack| - 1;
      var top := dirstack[n];
      assert top in dirstack;
      curdir := top;
      dirstack := dirstack[..n];
      direntries := ReadDirectory(fs[top]);
      ghost var w := walk;
      walk := Walk(w.visited + {top}, dirstack, direntries, top, w.yielded);
      assert Opens(fs, w, walk);
      OpeningKeepsInv(fs, root, w, walk);
      assert top in fs.Keys - w.visited && top !in fs.Keys - walk.visited;
    }

    /** The entry at the back of the open directory. */
    method Yield()
      requires Valid() && direntries != []
      modifies this
      ensures Valid()
      ensures done == old(done) && walk.visited == old(walk.visited) && |direntries| < |old(direntries)|
      ensures walk.yielded == old(walk.yielded) + [curpath] && (curisdir <==> IsDirectory(fs, curpath))
    {
      var n := |direntries| - 1;
      curpath := curdir + direntries[n].name;
      curisdir := IsDirectory(fs, curpath);
      direntries := direntries[..n];
      if curisdir {
        dirstack := dirstack + [curpath + "/"];
      }
      AfterYieldIs(fs, walk, curpath, dirstack, direntries);
      walk := Walk(walk.visited, dirstack, direntries, curdir, walk.yielded + [curpath]);
      YieldingKeepsInv(fs, root, old(walk));
    }
  }

  predicate IsDesktopFile(fs: FileSystem, path: string) {
    !IsDirectory(fs, path) && EndsWith(path, ".desktop")
  }

  function DesktopFiles(fs: FileSystem, paths: seq<string>): seq<string> {
    if paths == [] then []
    else
      var last := paths[|paths| - 1];
      DesktopFiles(fs, paths[..|paths| - 1]) + (if IsDesktopFile(fs, last) then [last] else [])
  }

  lemma DesktopFilesStep(fs: FileSystem, paths: seq<string>, path: string)
    ensures DesktopFiles(fs, paths + [path])
         == DesktopFiles(fs, paths) + (if !IsDirectory(fs, path) && EndsWith(path, ".desktop") then [path] else [])
  {
    assert (paths + [path])[..|paths|] == paths;
  }

  lemma {:induction false} DesktopFilesOf(fs: FileSystem, paths: seq<string>)
    ensures forall path :: path in DesktopFiles(fs, paths) <==> path in paths && IsDesktopFile(fs, path)
    ensures Distinct(paths) ==> Distinct(DesktopFiles(fs, paths))
  {
    if paths != [] {
      var n := |paths| - 1;
      DesktopFilesOf(fs, paths[..n]);
      assert paths == paths[..n] + [paths[n]];
      assert Distinct(paths) ==> paths[n] !in paths[..n];
    }
  }

  /** The walk stands at an entry, or it is done; `seen` are the entries before it. */
  ghost predicate StandsAfter(finder: FileFinder, seen: seq<string>)
    reads finder
  {
    && finder.Valid()
    && finder.walk.yielded == (if finder.done then seen else seen + [finder.curpath])
    && (!finder.done ==> (finder.curisdir <==> IsDirectory(finder.fs, finder.curpath)))
  }

  /** One search path of `collect_files`: exactly the desktop files below it, each once. */
  method CollectFilesBelow(fs: FileSystem, root: string) returns (files: seq<string>)
    requires WellFormed(fs) && root in fs
    ensures Distinct(files)
    ensures forall path :: path in files <==> Below(fs, root, path) && IsDesktopFile(fs, path)
  {
    var finder := new FileFinder(fs, root);
    files := [];
    finder.Next();
    ghost var seen: seq<string> := [];
    while !finder.done
      invariant StandsAfter(finder, seen) && finder.fs == fs && finder.root == root
      invariant files == DesktopFiles(fs, seen)
      decreases !finder.done, fs.Keys - finder.walk.visited, |finder.direntries|
    {
      files, seen := TakeEntry(finder, files, seen);
    }
    CollectedAll(finder, files);
  }

  /** The body of the loop: the current entry is kept if it is a desktop file, then the walk goes on. */
  method TakeEntry(finder: FileFinder, files: seq<string>, ghost seen: seq<string>)
    returns (files': seq<string>, ghost seen': seq<string>)
    requires StandsAfter(finder, seen) && !finder.done && files == DesktopFiles(finder.fs, seen)
    modifies finder
    ensures StandsAfter(finder, seen') && files' == DesktopFiles(finder.fs, seen')
    ensures !finder.done ==> finder.Progress()
  {
    DesktopFilesStep(finder.fs, seen, finder.curpath);
    seen' := seen + [finder.curpath];
    files' := files;
    if !finder.curisdir && EndsWith(finder.curpath, ".desktop") {
      files' := files + [finder.curpath];
    }
    finder.Next();
  }

  lemma CollectedAll(finder: FileFinder, files: seq<string>)
    requires finder.Valid() && finder.done && files == DesktopFiles(finder.fs, finder.walk.yielded)
    ensures Distinct(files)
    ensures forall path :: path in files <==> Below(finder.fs, finder.root, path) && IsDesktopFile(finder.fs, path)
  {
    FinishedWalkIsComplete(finder.fs, finder.root, finder.walk);
    DesktopFilesOf(finder.fs, finder.walk.yielded);
  }

  lemma {:induction false} VisibleIsBelowRoot(fs: FileSystem, root: string, dir: string)
    requires Visible(fs, root, dir)
    ensures StartsWith(dir, root)
    decreases |dir|
  {
    if dir != root {
      var parent, name :| IsChild(fs, parent, name, dir) && Visible(fs, root, parent);
      VisibleIsBelowRoot(fs, root, parent);
      PrefixStays(parent, name + "/", root);
      Assoc(parent, name, "/");
    }
  }

  lemma PrefixStays(a: string, b: string, prefix: string)
    requires StartsWith(a, prefix)
    ensures StartsWith(a + b, prefix)
  {
    assert (a + b)[..|prefix|] == a[..|prefix|];
  }

  lemma EntryIsBelowRoot(fs: FileSystem, root: string, path: string)
    requires Below(fs, root, path)
    ensures StartsWith(path, root)
  {
    var dir, name :| IsEntry(fs, root, dir, name, path);
    VisibleIsBelowRoot(fs, root, dir);
    PrefixStays(dir, name, root);
  }

  /** The files of one search path: exactly the desktop files below it, each once. */
  ghost predicate Collected(fs: FileSystem, root: string, r: AppManagers.RankFiles) {
    && r.basePath == root && Distinct(r.files)
    && forall path :: path in r.files <==>
         Below(fs, root, path) && !IsDirectory(fs, path) && EndsWith(path, ".desktop")
  }

  /** `collect_files`: one rank for each search path, in order, fit for the constructor of AppManager. */
  method CollectFiles(fs: FileSystem, searchPath: seq<string>) returns (result: seq<AppManagers.RankFiles>)
    requires WellFormed(fs) && forall path <- searchPath :: path in fs
    ensures |result| == |searchPath| && AppManagers.WellBased(result)
    ensures forall i :: 0 <= i < |result| ==> Collected(fs, searchPath[i], result[i])
  {
    result := [];
    for i := 0 to |searchPath|
      invariant |result| == i
      invariant forall k :: 0 <= k < i ==> Collected(fs, searchPath[k], result[k])
    {
      var files := CollectFilesBelow(fs, searchPath[i]);
      result := result + [AppManagers.RankFiles(searchPath[i], files)];
    }
    forall r <- result, file <- r.files ensures StartsWith(file, r.basePath) {
      var i :| 0 <= i < |result| && result[i] == r;
      assert Collected(fs, searchPath[i], result[i]);
      EntryIsBelowRoot(fs, searchPath[i], file);
    }
  }

  // ---- hidden entries -----------------------------------------------------------------------

  /** No component of the path behind the root begins with a dot. */
  predicate NoHiddenComponent(root: string, path: string) {
    forall i {:trigger path[i]} :: |root| <= i < |path| && path[i] == '.' ==> i > |root| && path[i - 1] != '/'
  }

  lemma NextComponent(root: string, dir: string, name: string)
    requires NoHiddenComponent(root, dir) && |root| <= |dir| && name != "" && name[0] != '.' && '/' !in name
    ensures NoHiddenComponent(root, dir + name) && NoHiddenComponent(root, dir + name + "/")
  {
    var path := dir + name + "/";
    forall i | |root| <= i < |path| && path[i] == '.' ensures i > |root| && path[i - 1] != '/' {
      if i < |dir| {
        assert path[i] == dir[i];
      } else {
        assert path[i] == name[i - |dir|] && i > |dir|;
        assert path[i - 1] == name[i - |dir| - 1] && name[i - |dir| - 1] in name;
      }
    }
    assert forall i :: 0 <= i < |dir + name| ==> (dir + name)[i] == path[i];
  }

  lemma {:induction false} VisibleIsNotHidden(fs: FileSystem, root: string, dir: string)
    requires WellFormed(fs) && Visible(fs, root, dir)
    ensures NoHiddenComponent(root, dir) && |root| <= |dir|
    decreases |dir|
  {
    if dir != root {
      var parent, name :| IsChild(fs, parent, name, dir) && Visible(fs, root, parent);
      VisibleIsNotHidden(fs, root, parent);
      ShownIsPlain(fs, parent, name);
      NextComponent(root, parent, name);
    }
  }

  /** Nothing hidden is found, nor anything below a hidden directory. */
  lemma FoundIsNotHidden(fs: FileSystem, root: string, path: string)
    requires WellFormed(fs) && Below(fs, root, path)
    ensures NoHiddenComponent(root, path)
  {
    var dir, name :| IsEntry(fs, root, dir, name, path);
    VisibleIsNotHidden(fs, root, dir);
    ShownIsPlain(fs, dir, name);
    NextComponent(root, dir, name);
  }

  /** Everything else is found: any entry without a leading dot of a directory that is, or of the root. */
  lemma NothingElseIsMissed(fs: FileSystem, root: string, dir: string, e: DirEntry)
    requires WellFormed(fs) && root in fs && dir in fs && e in fs[dir] && e.name[0] != '.'
    requires dir == root || (exists path :: Below(fs, root, path) && dir == path + "/")
    ensures Below(fs, root, dir + e.name)
  {
    assert Shown(fs, dir, e.name);
    if dir != root {
      var path :| Below(fs, root, path) && dir == path + "/";
      var parent, name :| IsEntry(fs, root, parent, name, path);
      assert IsChild(fs, parent, name, dir);
    }
    assert IsEntry(fs, root, dir, e.name, dir + e.name);
  }
}
