/**
  sys_mkdir, sys_unlink, sys_rmdir and sys_open with O_CREAT, from the path to the disk (fs/fs.c:295-367,
  468-613 and 666-689), and what a later search for the same path finds.
 */
module Syscalls {
  import opened Outcomes
  import opened Bitmap
  import opened Bytes
  import opened Volume
  import opened Partitions
  import opened Directory
  import opened Directories
  import opened FileTree
  import opened FileSystem
  import opened Paths

  // ---------- Lookups before and after ----------

  /** After a creation a lookup finds the new entry, and otherwise what it found before. */
  lemma LookupAfterCreation(f: Fs, d: nat, e: Entry, g: Fs, x: nat, name: seq<byte>)
    requires FsInv(f) && Creates(f, d, e, g) && x in f.tree && f.tree[x].isDir
    ensures Lookup(Listing(g.v, x), name) == if x == d && name == e.name then Some(e) else Lookup(Listing(f.v, x), name)
  {
    hide *;
    CreatesFacts(f, d, e, g);
    GrownFacts(f.v, g.v, d, e.iNo, e);
    if x == d {
      var a, b := GrownList(f.v, g.v, d, e.iNo, e);
      DirFacts(g.v, d);
      DeleteDistinct(a, e, b);
      LookupInsert(a, e, b, name);
    } else {
      FsPlace(f, x);
      PlaceShape(f, x);
      SameShape(f.v, g.v, x, f.tree[x]);
    }
  }

  /** After a removal a lookup no longer finds the entry, and otherwise what it found before. */
  lemma LookupAfterRemoval(f: Fs, d: nat, c: nat, e: Entry, t: Volume, g: Fs, x: nat, name: seq<byte>)
    requires FsInv(f) && Removes(f, d, c, e, t, g) && x in f.tree && f.tree[x].isDir && x != c
    ensures Lookup(Listing(g.v, x), name) == if x == d && name == e.name then None else Lookup(Listing(f.v, x), name)
  {
    hide *;
    RemovesChild(f, d, c, e, t, g);
    RemovesFacts(f, d, c, e, t, g);
    ShrunkFacts(f.v, g.v, d, c, e);
    FsPlace(f, x);
    PlaceShape(f, x);
    ShapeFacts(f, x);
    if x == d {
      var a, b := ShrunkList(f.v, g.v, d, c, e);
      DirFacts(f.v, d);
      LookupDelete(a, e, b, name);
    } else {
      SameShape(f.v, g.v, x, f.tree[x]);
    }
  }

  // ---------- Walks before and after ----------

  /** A walk that misses its last name has found everything before it. */
  lemma {:induction false} MissedLast(v: Volume, x: nat, up: nat, names: seq<seq<byte>>)
    requires Walk(v, x, up, names).Missing? && Walk(v, x, up, names).used == |names|
    ensures names != []
    ensures var last := |names| - 1;
            && Walk(v, x, up, names[..last]).AtDir? && Walk(v, x, up, names[..last]).inode == Walk(v, x, up, names).parent
            && Lookup(Listing(v, Walk(v, x, up, names).parent), names[last]) == None
    decreases |names|
  {
    hide Lookup, Listing;
    var last := |names| - 1;
    var e := Lookup(Listing(v, x), names[0]);
    if e.Some? {
      MissedLast(v, e.value.iNo, x, names[1..]);
      assert names[1..][..last - 1] == names[..last][1..] && names[..last][0] == names[0];
    } else {
      assert names[..last] == [];
    }
  }

  /** A creation does not disturb a walk that succeeds. */
  lemma {:induction false} WalkSurvives(f: Fs, d: nat, e: Entry, g: Fs, x: nat, up: nat, names: seq<seq<byte>>)
    requires FsInv(f) && Creates(f, d, e, g) && Lookup(Listing(f.v, d), e.name).None? && x in f.tree && f.tree[x].isDir
    requires Walk(f.v, x, up, names).AtDir?
    ensures Walk(g.v, x, up, names) == Walk(f.v, x, up, names)
    decreases |names|
  {
    hide FsInv, Creates, Lookup, Listing;
    if names != [] {
      LookupAfterCreation(f, d, e, g, x, names[0]);
      FoundInTree(f, x, names[0]);
      var y := Lookup(Listing(f.v, x), names[0]).value;
      WalkSurvives(f, d, e, g, y.iNo, x, names[1..]);
    }
  }

  /** After a creation the path that was missing its last name leads to the new inode. */
  lemma CreatedIsFound(f: Fs, d: nat, e: Entry, g: Fs, names: seq<seq<byte>>)
    requires FsInv(f) && Creates(f, d, e, g) && Walk(f.v, 0, 0, names) == Missing(d, |names|)
    requires names != [] && e.name == names[|names| - 1]
    ensures Walk(g.v, 0, 0, names) == if e.ftype == DIRECTORY then AtDir(e.iNo, d) else AtFile(e.iNo, d, |names|)
  {
    hide *;
    var last := |names| - 1;
    MissedLast(f.v, 0, 0, names);
    RootIsDir(f);
    CreatesFacts(f, d, e, g);
    WalkSurvives(f, d, e, g, 0, 0, names[..last]);
    LookupAfterCreation(f, d, e, g, d, e.name);
    var up := Walk(f.v, 0, 0, names[..last]).parent;
    WalkAppend(g.v, 0, 0, names[..last], [e.name]);
    SplitLast(names);
    PlusOne(e.iNo, d, last);
    if e.ftype == DIRECTORY {
      OneStep(g.v, d, up, e.name, e);
    } else {
      FileStep(g.v, d, up, e.name, e);
    }
  }

  lemma SplitLast(names: seq<seq<byte>>)
    requires names != []
    ensures names == names[..|names| - 1] + [names[|names| - 1]]
  {}

  lemma PlusOne(i: nat, q: nat, k: nat)
    ensures Plus(AtDir(i, q), k) == AtDir(i, q) && Plus(AtFile(i, q, 1), k) == AtFile(i, q, k + 1)
  {}

  lemma FileStep(v: Volume, q: nat, up: nat, name: seq<byte>, e: Entry)
    requires Lookup(Listing(v, q), name) == Some(e) && e.ftype != DIRECTORY
    ensures Walk(v, q, up, [name]) == AtFile(e.iNo, q, 1)
  {
    hide Lookup, Listing;
  }

  /** The inode that a walk ends at. */
  predicate EndsAt(a: Answer, c: nat) {
    !a.Missing? && a.inode == c
  }

  /** After a removal every walk that ended at the inode by its name misses; even one that passed through
      the inode on its way. */
  lemma {:induction false} RemovedIsMissing(f: Fs, d: nat, c: nat, e: Entry, t: Volume, g: Fs, x: nat, up: nat, names: seq<seq<byte>>)
    requires FsInv(f) && Removes(f, d, c, e, t, g) && x in f.tree && f.tree[x].isDir && x != c && names != []
    requires EndsAt(Walk(f.v, x, up, names), c)
    ensures Walk(g.v, x, up, names).Missing?
    decreases |names|
  {
    hide FsInv, Removes, Lookup, Listing, IsDot;
    LookupAfterRemoval(f, d, c, e, t, g, x, names[0]);
    FoundInTree(f, x, names[0]);
    var y := Lookup(Listing(f.v, x), names[0]).value;
    if y.iNo == c {
      OnlyByName(f, d, c, e, t, g, x, names[0]);
    } else {
      assert |names| == 1 ==> Walk(f.v, y.iNo, x, names[1..]) == AtDir(y.iNo, x);
      NotTheEntry(f, d, c, e, t, g, x, names[0]);
      RemovedIsMissing(f, d, c, e, t, g, y.iNo, x, names[1..]);
    }
  }

  /** Another directory finds the inode only if it is d, under the entry's name. */
  lemma OnlyByName(f: Fs, d: nat, c: nat, e: Entry, t: Volume, g: Fs, x: nat, name: seq<byte>)
    requires FsInv(f) && Removes(f, d, c, e, t, g) && x in f.tree && f.tree[x].isDir && x != c
    requires Lookup(Listing(f.v, x), name).Some? && Lookup(Listing(f.v, x), name).value.iNo == c
    ensures x == d && name == e.name
  {
    hide *;
    RemovesChild(f, d, c, e, t, g);
    RemovesFacts(f, d, c, e, t, g);
    FoundInTree(f, x, name);
    if x != 0 {
      NoChildren(f, c, x);
    }
    RootIsDir(f);
    LookupFinds(Listing(f.v, x), name);
    DotsDiffer(name);
    if x == d {
      DirOfTree(f, d);
      DirFacts(f.v, d);
      NotDot(Lookup(Listing(f.v, x), name).value, name);
      OneNumber(Listing(f.v, d), e, Lookup(Listing(f.v, x), name).value);
    }
  }

  lemma DotsDiffer(name: seq<byte>)
    ensures name == DOT ==> name != DOTDOT
  {}

  lemma OneNumber(s: seq<Entry>, x: Entry, y: Entry)
    requires NumbersDistinct(s) && x in s && y in s && !IsDot(x) && !IsDot(y) && x.iNo == y.iNo
    ensures x == y
  {}

  lemma NotTheEntry(f: Fs, d: nat, c: nat, e: Entry, t: Volume, g: Fs, x: nat, name: seq<byte>)
    requires FsInv(f) && Removes(f, d, c, e, t, g) && x in f.tree && f.tree[x].isDir && x != c
    requires Lookup(Listing(f.v, x), name).Some? && Lookup(Listing(f.v, x), name).value.iNo != c
    ensures !(x == d && name == e.name)
  {
    hide *;
    RemovesFacts(f, d, c, e, t, g);
    DirOfTree(f, d);
    LookupNumber(f.v, d, e);
  }

  lemma LookupNumber(v: Volume, d: nat, e: Entry)
    requires DirOk(v, d) && e in Listing(v, d)
    ensures Lookup(Listing(v, d), e.name) == Some(e)
  {
    DirFacts(v, d);
    hide DirOk, Listing, Raw, AllWellFormed, NumbersDistinct;
    LookupFinds(Listing(v, d), e.name);
    SameNameSame(Listing(v, d), e, Lookup(Listing(v, d), e.name).value);
  }

  // ---------- What a search has told ----------

  predicate GoodPath(path: seq<byte>) {
    RootSpelling(path) || (path != [] && path[0] == SLASH && 1 < |path| < MAX_PATH && AllNames(Components(path)))
  }

  /** All names but the last were found, and the last is not there: the path can be created. */
  ghost predicate CanCreate(v: Volume, path: seq<byte>) {
    !RootSpelling(path) && Walk(v, 0, 0, Components(path)).Missing? && Walk(v, 0, 0, Components(path)).used == |Components(path)|
  }

  lemma SearchedFacts(v: Volume, path: seq<byte>, r: Option<nat>, rec: Record)
    requires Searched(v, path, r, rec) && GoodPath(path) && r == None
    ensures !RootSpelling(path) && Components(path) != [] ==> Walk(v, 0, 0, Components(path)).Missing? && rec.parent == Walk(v, 0, 0, Components(path)).parent
    ensures !RootSpelling(path) && Components(path) != [] ==>
              var u := Walk(v, 0, 0, Components(path)).used;
              u <= |Components(path)| && rec.searched == Join(Components(path)[..u]) && Components(rec.searched) == Components(path)[..u]
    ensures !RootSpelling(path)
  {
    hide Walk, Components, Join, AllNames;
    var names := Components(path);
    if !RootSpelling(path) && names != [] {
      NamesPrefix(names, Walk(v, 0, 0, names).used);
      ComponentsOfJoin(names[..Walk(v, 0, 0, names).used]);
    }
  }

  lemma NamesPrefix(names: seq<seq<byte>>, k: nat)
    requires AllNames(names) && k <= |names|
    ensures AllNames(names[..k])
  {
    forall j: nat | j < k
      ensures IsName(names[..k][j])
    {
      assert names[..k][j] == names[j];
    }
  }

  /** The name after the last slash of the searched path. */
  lemma LastOfJoin(names: seq<seq<byte>>, i: nat)
    requires AllNames(names) && i < |Join(names)| && Join(names)[i] == SLASH && SLASH !in Join(names)[i + 1..]
    ensures names != [] && Join(names)[i + 1..] == names[|names| - 1] && IsName(names[|names| - 1])
  {
    CutAtLast(names, i);
    assert IsName(names[|names| - 1]);
    hide Join, AllNames;
    assert Join(names)[i + 1..] == Join(names)[i..][1..];
  }

  /** The name after the last slash of a path that does not end in one. */
  lemma {:induction false} LastOfPath(path: seq<byte>, i: nat)
    requires i + 1 < |path| && path[i] == SLASH && NoSlash(path[i + 1..])
    ensures Components(path) != [] && Components(path)[|Components(path)| - 1] == path[i + 1..]
    decreases |path|
  {
    if path[0] == SLASH {
      if i == 0 {
        FirstName(path[1..], |path| - 1);
        assert path[1..][..|path| - 1] == path[1..] && path[1..][|path| - 1..] == [];
      } else {
        assert path[1..][i..] == path[i + 1..];
        LastOfPath(path[1..], i - 1);
      }
    } else {
      var n := NameLen(path);
      assert n <= i by { NameEnds(path, i); }
      assert path[n..][i - n + 1..] == path[i + 1..];
      LastOfPath(path[n..], i - n);
    }
  }

  lemma NameEnds(path: seq<byte>, i: nat)
    requires i < |path| && path[i] == SLASH
    ensures NameLen(path) <= i
  {
    TakeAt(path, NameLen(path), i);
  }

  lemma TakeAt(s: seq<byte>, n: nat, i: nat)
    requires n <= |s| && i < |s|
    ensures i < n ==> s[..n][i] == s[i]
  {}

  lemma NotEmptyJoin(names: seq<seq<byte>>)
    requires names != []
    ensures SLASH in Join(names)
  {
    JoinNonEmpty(names);
  }

  /** There is room for one entry more in every directory, and a free inode has a number below 256. */
  ghost predicate Roomy(f: Fs) {
    && (forall d {:trigger RoomIn(f, d)} :: RoomIn(f, d))
    && (FirstFree(f.v.iBits).Some? ==> FirstFree(f.v.iBits).value < 256)
  }

  ghost predicate RoomIn(f: Fs, d: nat) {
    d in f.tree && f.tree[d].isDir ==> d in f.v.nodes && |f.v.nodes[d].sectors| == 13 && HasRoom(f.v, d)
  }

  lemma RoomyAt(f: Fs, d: nat)
    requires Roomy(f)
    ensures RoomIn(f, d)
    ensures FirstFree(f.v.iBits).Some? ==> FirstFree(f.v.iBits).value < 256
  {
    hide RoomIn, FirstFree;
  }

  /** What is known where the last name is missing. */
  lemma CreatableAt(f: Fs, path: seq<byte>)
    requires FsInv(f) && CanCreate(f.v, path) && AllNames(Components(path)) && Roomy(f)
    ensures Components(path) != []
    ensures var names := Components(path);
            var d := Walk(f.v, 0, 0, names).parent;
            && d in f.tree && f.tree[d].isDir && RoomIn(f, d)
            && Lookup(Listing(f.v, d), names[|names| - 1]) == None && GoodName(names[|names| - 1]) && SLASH !in names[|names| - 1]
  {
    hide FsInv, Walk, Components, Lookup, Listing, Roomy, RoomIn;
    var names := Components(path);
    RootIsDir(f);
    MissedLast(f.v, 0, 0, names);
    WalkInTree(f, 0, 0, names);
    RoomyAt(f, Walk(f.v, 0, 0, names).parent);
    assert IsName(names[|names| - 1]);
  }

  /** The new inode is found by the path it was created with. */
  lemma CreatedByPath(f: Fs, path: seq<byte>, e: Entry, g: Fs)
    requires FsInv(f) && CanCreate(f.v, path) && Components(path) != [] && e.name == Components(path)[|Components(path)| - 1]
    requires Creates(f, Walk(f.v, 0, 0, Components(path)).parent, e, g)
    ensures EndsAt(Resolve(g.v, path), e.iNo) && Resolve(g.v, path).parent == Walk(f.v, 0, 0, Components(path)).parent
    ensures Resolve(g.v, path).AtDir? <==> e.ftype == DIRECTORY
  {
    hide FsInv, Walk, Components, Creates;
    CreatedIsFound(f, Walk(f.v, 0, 0, Components(path)).parent, e, g, Components(path));
  }

  /** There are an inode, a block for the dots of a new directory, and a block for the entry when the
      parent needs one. */
  ghost predicate HasSpace(f: Fs, d: nat, isDir: bool) {
    && d in f.v.nodes && |f.v.nodes[d].sectors| == 13 && FirstFree(f.v.iBits).Some? && (isDir ==> FreeCount(f.v.bits) > 0)
    && (FreeCount(f.v.bits) > (if isDir then 1 else 0) || !NeedsBlock(f.v, d))
  }

  // ---------- sys_mkdir ----------

  /** sys_mkdir. With an inode and enough blocks it succeeds exactly when all names but the last lead to a
      directory and the last is not there; a search for the path then finds the new directory. Where a
      bitmap is full, a kernel built with ASSERTs has stopped in bitmap_scan. */
  method SysMkdir(p: Partition, ghost f: Fs, path: seq<byte>, junk: nat) returns (ret: int, ghost g: Fs)
    requires p.Valid() && f.v == p.View() && FsInv(f) && GoodPath(path) && Roomy(f)
    modifies p
    ensures p.Valid() && g.v == p.View() && FsInv(g) && Step(f, g) && (ret == 0 || ret == -1)
    ensures ret == 0 ==> CanCreate(f.v, path) && Resolve(g.v, path).AtDir? && Resolve(g.v, path).inode !in f.tree
    ensures ret == 0 ==>
              && Components(path) != [] && FirstFree(f.v.iBits).Some?
              && Creates(f, Resolve(f.v, path).parent, Entry(Components(path)[|Components(path)| - 1], FirstFree(f.v.iBits).value, DIRECTORY), g)
    ensures ret == 0 <==> CanCreate(f.v, path) && HasSpace(f, Resolve(f.v, path).parent, true)
    ensures p.stopped == (old(p.stopped) || (CanCreate(f.v, path) && ret == -1))
    ensures ret == -1 && FreeCount(f.v.bits) != 1 ==> g == f
  {
    hide FsInv, Inv, Walk, Components, AllNames, Searched, RootSpelling, Join, Creates, Step, HasRoom, Lookup, Listing, Roomy, FirstFree, FreeCount, Leaks, NeedsBlock;
    SameIsStep(f);
    g, ret := f, -1;
    ghost var names := Components(path);
    var r, rec := SearchFile(p, f, path, junk);
    if r.Some? {
      FoundCannotCreate(f.v, path, r, rec);
      return;
    }
    NotRootHere(f.v, path, r, rec, junk);
    SearchedFacts(f.v, path, r, rec);
    var depth := PathDepth(path);
    var searchedDepth := PathDepth(rec.searched);
    if depth != searchedDepth {
      OnlyWhole(f.v, path, r, rec);
      return;
    }
    ghost var u := Walk(f.v, 0, 0, names).used;
    assert names[..u] == names;
    CreatableAt(f, path);
    RoomyAt(f, rec.parent);
    NotEmptyJoin(names);
    var slash := LastSlash(rec.searched);
    LastOfJoin(names, slash.value);
    var ok;
    ok, g := MakeDir(p, f, rec.parent, rec.searched[slash.value + 1..]);
    if ok {
      ret := 0;
      CreatedByPath(f, path, Entry(names[|names| - 1], FirstFree(f.v.iBits).value, DIRECTORY), g);
      NewNumberOf(f, rec.parent, Entry(names[|names| - 1], FirstFree(f.v.iBits).value, DIRECTORY), g);
    }
  }

  lemma NewNumberOf(f: Fs, d: nat, e: Entry, g: Fs)
    requires Creates(f, d, e, g)
    ensures e.iNo !in f.tree
  {}

  lemma FoundCannotCreate(v: Volume, path: seq<byte>, r: Option<nat>, rec: Record)
    requires Searched(v, path, r, rec) && r.Some?
    ensures !CanCreate(v, path)
  {
    hide Components, Join;
  }

  lemma NotRootHere(v: Volume, path: seq<byte>, r: Option<nat>, rec: Record, junk: nat)
    requires Searched(v, path, r, rec) && GoodPath(path) && r == None
    requires !RootSpelling(path) && Components(path) == [] ==> r == Some(junk)
    ensures !RootSpelling(path) && Components(path) != [] && Resolve(v, path) == Walk(v, 0, 0, Components(path))
  {
    hide Components, Join, AllNames, Walk;
  }

  // ---------- sys_open with O_CREAT ----------

  /** sys_open to create a file: as sys_mkdir, for paths that do not end in a slash, and with a slot of
      the file table; nothing is lost when it fails. The descriptor number is not modelled. */
  method OpenCreate(p: Partition, ghost f: Fs, path: seq<byte>, hasSlot: bool, junk: nat) returns (ok: bool, ghost g: Fs)
    requires p.Valid() && f.v == p.View() && FsInv(f) && GoodPath(path) && Roomy(f)
    modifies p
    ensures p.Valid() && g.v == p.View() && FsInv(g) && Step(f, g)
    ensures ok ==> CanCreate(f.v, path) && Resolve(g.v, path).AtFile? && Resolve(g.v, path).inode !in f.tree
    ensures ok ==>
              && Components(path) != [] && FirstFree(f.v.iBits).Some?
              && Creates(f, Resolve(f.v, path).parent, Entry(Components(path)[|Components(path)| - 1], FirstFree(f.v.iBits).value, REGULAR), g)
    ensures !ok ==> g == f
    ensures path != [] && (ok <==> CanCreate(f.v, path) && path[|path| - 1] != SLASH && hasSlot && HasSpace(f, Resolve(f.v, path).parent, false))
    ensures FreeCount(p.bits) + 1 >= FreeCount(f.v.bits)
    ensures p.stopped == (old(p.stopped) || (CanCreate(f.v, path) && path[|path| - 1] != SLASH && !ok && (hasSlot || FirstFree(f.v.iBits) == None)))
  {
    hide FsInv, Inv, Walk, Components, AllNames, Searched, RootSpelling, Join, Creates, Step, HasRoom, Lookup, Listing, Roomy, FirstFree, FreeCount, Leaks, NeedsBlock;
    SameIsStep(f);
    g, ok := f, false;
    ghost var names := Components(path);
    PathStarts(path);
    if path[|path| - 1] == SLASH {
      return;
    }
    var r, rec := SearchFile(p, f, path, junk);
    if rec.ftype == DIRECTORY {
      DirCannotCreate(f.v, path, r, rec);
      return;
    }
    var depth := PathDepth(path);
    var searchedDepth := PathDepth(rec.searched);
    if depth != searchedDepth || r.Some? {
      OnlyWhole(f.v, path, r, rec);
      return;
    }
    NotRootHere(f.v, path, r, rec, junk);
    SearchedFacts(f.v, path, r, rec);
    ghost var u := Walk(f.v, 0, 0, names).used;
    assert names[..u] == names;
    CreatableAt(f, path);
    RoomyAt(f, rec.parent);
    var slash := LastSlash(path);
    LastOfPath(path, slash.value);
    ok, g := FileCreate(p, f, rec.parent, path[slash.value + 1..], hasSlot);
    if ok {
      CreatedByPath(f, path, Entry(names[|names| - 1], FirstFree(f.v.iBits).value, REGULAR), g);
      NewNumberOf(f, rec.parent, Entry(names[|names| - 1], FirstFree(f.v.iBits).value, REGULAR), g);
    }
  }

  lemma PathStarts(path: seq<byte>)
    requires GoodPath(path)
    ensures path != [] && path[0] == SLASH
  {
    hide AllNames;
  }

  /** A search that ends at a directory, or by way of junk, says that the path cannot be created. */
  lemma DirCannotCreate(v: Volume, path: seq<byte>, r: Option<nat>, rec: Record)
    requires Searched(v, path, r, rec) && rec.ftype == DIRECTORY
    ensures !CanCreate(v, path)
  {
    hide Components, Join;
    if CanCreate(v, path) {
      MissingIsUnknown(v, path, r, rec);
    }
  }

  lemma MissingIsUnknown(v: Volume, path: seq<byte>, r: Option<nat>, rec: Record)
    requires Searched(v, path, r, rec) && CanCreate(v, path)
    ensures r == None && rec.ftype == UNKNOWN && rec.searched == Join(Components(path))
  {
    hide Components, Join;
    assert Components(path)[..|Components(path)|] == Components(path);
    WalkEnds(v, 0, 0);
  }

  lemma OnlyWhole(v: Volume, path: seq<byte>, r: Option<nat>, rec: Record)
    requires Searched(v, path, r, rec) && GoodPath(path) && (|Components(path)| != |Components(rec.searched)| || r.Some?)
    ensures !CanCreate(v, path)
  {
    hide Components, Join, Searched, Walk, AllNames;
    if CanCreate(v, path) {
      MissingIsUnknown(v, path, r, rec);
      ComponentsOfJoin(Components(path));
    }
  }

  // ---------- sys_unlink and sys_rmdir ----------

  lemma FoundAt(v: Volume, path: seq<byte>, r: Option<nat>, rec: Record, junk: nat)
    requires Searched(v, path, r, rec) && (RootSpelling(path) || Components(path) != [])
    ensures match Resolve(v, path)
            case AtDir(i, q) => r == Some(i) && rec.ftype == DIRECTORY && rec.parent == q
            case AtFile(i, q, _) => r == Some(i) && rec.ftype == REGULAR && rec.parent == q
            case Missing(q, _) => r == None && rec.ftype == UNKNOWN
    ensures RootSpelling(path) ==> Resolve(v, path) == AtDir(0, 0)
    ensures !RootSpelling(path) ==> Resolve(v, path) == Walk(v, 0, 0, Components(path))
  {
    hide Components, Join, Walk;
  }

  /** After a removal the path leads nowhere. */
  lemma RemovedByPath(f: Fs, path: seq<byte>, d: nat, c: nat, e: Entry, t: Volume, g: Fs)
    requires FsInv(f) && Removes(f, d, c, e, t, g) && EndsAt(Resolve(f.v, path), c) && c != 0
    ensures Resolve(g.v, path).Missing?
  {
    hide FsInv, Walk, Components, Removes;
    RootIsDir(f);
    WalkEnds(f.v, 0, 0);
    RemovedIsMissing(f, d, c, e, t, g, 0, 0, Components(path));
  }

  /** sys_unlink, for a path that does not lead to the root, within its ASSERT. It succeeds exactly when
      the search ends at a regular file that is not open, and then the path leads nowhere. */
  method SysUnlink(p: Partition, ghost f: Fs, path: seq<byte>, fileTable: FileTable, junk: nat) returns (ret: int, ghost g: Fs)
    requires p.Valid() && f.v == p.View() && FsInv(f) && GoodPath(path) && (RootSpelling(path) || Components(path) != [])
    requires !EndsAt(Resolve(f.v, path), 0)
    modifies p
    ensures p.Valid() && g.v == p.View() && FsInv(g) && Step(f, g) && p.stopped == old(p.stopped)
    ensures ret == if Resolve(f.v, path).AtFile? && Some(Resolve(f.v, path).inode) !in fileTable then 0 else -1
    ensures ret == 0 ==> Resolve(g.v, path).Missing? && exists e, t :: Removes(f, Resolve(f.v, path).parent, Resolve(f.v, path).inode, e, t, g)
    ensures ret == -1 ==> g == f
  {
    hide FsInv, Inv, Walk, Components, AllNames, Searched, RootSpelling, Join, Step, Removes, Resolve;
    SameIsStep(f);
    g, ret := f, -1;
    var r, rec := SearchFile(p, f, path, junk);
    FoundAt(f.v, path, r, rec, junk);
    if r == None {
      return;
    }
    assert r.value != 0;
    if rec.ftype == DIRECTORY {
      return;
    }
    FileOfTree(f, path);
    var ok;
    ok, g := Unlink(p, f, rec.parent, r.value, fileTable);
    if ok {
      ret := 0;
      ghost var e, t :| Removes(f, rec.parent, r.value, e, t, g);
      RemovedByPath(f, path, rec.parent, r.value, e, t, g);
    }
  }

  lemma FileOfTree(f: Fs, path: seq<byte>)
    requires FsInv(f) && Resolve(f.v, path).AtFile?
    ensures var a := Resolve(f.v, path); a.inode in f.tree && !f.tree[a.inode].isDir && f.tree[a.inode].parent == a.parent
  {
    hide FsInv, Walk, Components;
    RootIsDir(f);
    WalkInTree(f, 0, 0, Components(path));
  }

  lemma DirOfPath(f: Fs, path: seq<byte>)
    requires FsInv(f) && !Resolve(f.v, path).Missing? && Resolve(f.v, path).inode != 0
    ensures FoundIn(f, Resolve(f.v, path).parent, Resolve(f.v, path).inode) && Resolve(f.v, path).inode in f.v.nodes
  {
    hide FsInv, Walk, Components;
    RootIsDir(f);
    WalkInTree(f, 0, 0, Components(path));
    WalkEnds(f.v, 0, 0);
    if Resolve(f.v, path).AtDir? {
      WalkFoundIn(f, 0, 0, Components(path));
      RootParent(f);
    }
    assert f.tree.Keys == f.v.nodes.Keys by { FsFacts(f); }
  }

  /** A path that leads through its last name to the directory that was searched: exactly the paths that
      end in ".". */
  lemma {:induction false} SelfIffDot(f: Fs, d: nat, up: nat, names: seq<seq<byte>>)
    requires FsInv(f) && d in f.tree && f.tree[d].isDir && names != [] && Walk(f.v, d, up, names).AtDir?
    ensures var a := Walk(f.v, d, up, names);
            a.inode == a.parent <==> names[|names| - 1] == DOT || (a.inode == 0 && a.parent == 0 && names[|names| - 1] == DOTDOT)
    decreases |names|
  {
    hide FsInv, Lookup, Listing;
    FoundInTree(f, d, names[0]);
    var e := Lookup(Listing(f.v, d), names[0]).value;
    if |names| == 1 {
      assert Walk(f.v, e.iNo, d, names[1..]) == AtDir(e.iNo, d);
      NotItsOwnParent(f, d);
      if e.iNo != 0 {
        NotItsOwnParent(f, e.iNo);
      }
      DotsDiffer(names[0]);
    } else {
      SelfIffDot(f, e.iNo, d, names[1..]);
    }
  }

  lemma NotItsOwnParent(f: Fs, d: nat)
    requires FsInv(f) && d in f.tree
    ensures f.tree[d].parent == d <==> d == 0
  {
    hide *;
    RootIsDir(f);
    RootParent(f);
    if d != 0 {
      ParentIsAbove(f, d);
    }
  }

  /** The last name of a path. */
  function LastName(path: seq<byte>): seq<byte> {
    if Components(path) == [] then [] else Components(path)[|Components(path)| - 1]
  }

  lemma SelfByPath(f: Fs, path: seq<byte>)
    requires FsInv(f) && (RootSpelling(path) || Components(path) != []) && !Resolve(f.v, path).Missing? && Resolve(f.v, path).inode != 0
    ensures Resolve(f.v, path).inode == Resolve(f.v, path).parent <==> Resolve(f.v, path).AtDir? && LastName(path) == DOT
  {
    hide FsInv, Walk, Components;
    RootIsDir(f);
    if Resolve(f.v, path).AtDir? {
      SelfIffDot(f, 0, 0, Components(path));
    } else {
      FileOfTree(f, path);
      NotItsOwnParent(f, Resolve(f.v, path).inode);
    }
  }

  /** sys_rmdir, for a path that does not lead to the root, within its ASSERT. It looks at the size only:
      it succeeds exactly when the path leads to an inode of 48 bytes. When the path ends in "." the inode
      goes and its entry stays, so that the invariant is lost, exactly then; otherwise the path leads
      nowhere afterwards. */
  method SysRmdir(p: Partition, ghost f: Fs, path: seq<byte>, junk: nat) returns (ret: int, ghost g: Fs)
    requires p.Valid() && f.v == p.View() && FsInv(f) && GoodPath(path) && (RootSpelling(path) || Components(path) != [])
    requires !EndsAt(Resolve(f.v, path), 0)
    modifies p
    ensures p.Valid() && g.v == p.View() && p.stopped == old(p.stopped)
    ensures var a := Resolve(f.v, path);
            && (ret == 0 || ret == -1) && (ret == -1 ==> g == f)
            && (ret == 0 <==> !a.Missing? && a.inode in f.v.nodes && f.v.nodes[a.inode].size == 2 * ENTRY)
            && (FsInv(g) <==> ret == -1 || !a.AtDir? || LastName(path) != DOT)
            && (ret == 0 && FsInv(g) ==> Resolve(g.v, path).Missing? && exists e, t :: Removes(f, a.parent, a.inode, e, t, g))
  {
    hide FsInv, Inv, Walk, Components, AllNames, Searched, RootSpelling, Join, Step, Removes, Resolve, FoundIn, Released, LastName;
    g, ret := f, -1;
    var r, rec := SearchFile(p, f, path, junk);
    FoundAt(f.v, path, r, rec, junk);
    if r == None {
      return;
    }
    assert r.value != 0;
    DirOfPath(f, path);
    SelfByPath(f, path);
    var ok;
    ok, g := RemoveDir(p, f, rec.parent, r.value);
    if ok {
      ret := 0;
      if rec.parent != r.value {
        ghost var e, t :| Removes(f, rec.parent, r.value, e, t, g);
        RemovedByPath(f, path, rec.parent, r.value, e, t, g);
      }
    }
  }
}
