/**
  Concrete calls at which the code does not do what its callers expect, most of them on a freshly formatted
  partition: the conditions that other modules state are met by real inputs.
 */
module Shortfalls {
  import opened Outcomes
  import opened Bitmap
  import opened Bytes
  import opened Volume
  import opened Partitions
  import opened Directory
  import opened Directories
  import opened FileTree
  import opened FileSystem
  import opened Format
  import opened Paths
  import opened Syscalls
  import FileData
  import Heap
  import MemoryInit

  /** The kernel's pool has 3840 pages in a machine of 32 MB. A request for one byte less than the pool
      passes sys_malloc's test of the size and fails the ASSERT in malloc_page, with nothing allocated. */
  lemma MallocOn32Megabytes()
    ensures var pool, h := MemoryInit.PoolPlan(32 * 0x10_0000).kernelPages * Heap.PAGE, Heap.Heap(map[], [[], [], [], [], [], [], []], map[]);
            pool == 3840 * Heap.PAGE && Heap.HeapInv(h) && Heap.Malloc(h, pool - 1, pool, None).Panic?
  {
    Heap.EmptyHeap();
    var pool, h := 3840 * Heap.PAGE, Heap.Heap(map[], [[], [], [], [], [], [], []], map[]);
    assert MemoryInit.PoolPlan(32 * 0x10_0000).kernelPages == 3840;
    hide Heap.HeapInv, Heap.Malloc;
    Heap.MallocPanicsIff(h, pool - 1, pool, None);
  }

  const A: seq<byte> := [97]
  const PATH_A: seq<byte> := [SLASH, 97]             // "/a"
  const PATH_A_DOT: seq<byte> := [SLASH, 97, SLASH, 46] // "/a/."

  /** A partition of cnt data blocks, just formatted and mounted. */
  function Fresh(dataStart: nat, cnt: nat): Fs
    requires BitmapBits(cnt) > 0
  {
    Fs(Formatted(dataStart, BitmapBits(cnt), cnt, BITS_PER_SECTOR), RootTree())
  }

  lemma FreshFacts(dataStart: nat, cnt: nat)
    requires dataStart > 0 && cnt >= 8 && BitmapBits(cnt) > 0
    ensures var f := Fresh(dataStart, cnt);
            && FsInv(f) && Listing(f.v, 0) == [DotEntry(0), DotDotEntry(0)] && f.tree == RootTree()
            && FirstFree(f.v.iBits) == Some(1) && FreeCount(f.v.bits) > 1
            && 0 in f.v.nodes && |f.v.nodes[0].sectors| == 13 && HasGap(f.v, 0, 1)
  {
    BitmapBitsPositive(cnt);
    FreshIsTree(dataStart, cnt);
    FormattedRoot(dataStart, BitmapBits(cnt), cnt, BITS_PER_SECTOR);
    FreshBits(dataStart, cnt);
    FreeInode(BITS_PER_SECTOR);
    TwoFree(FormattedBits(BitmapBits(cnt), cnt));
    hide FsInv, FirstFree, FreeCount, DirOk, Populated, Listing, FirstSector, FileSystem.DotsBlock, BitmapBits, FormattedBit;
    hide Formatted, FormattedBits;
  }

  lemma FreshIsTree(dataStart: nat, cnt: nat)
    requires dataStart > 0 && cnt >= 8 && BitmapBits(cnt) > 0
    ensures FsInv(Fresh(dataStart, cnt))
  {
    BitmapBitsPositive(cnt);
    FormattedIsTree(dataStart, BitmapBits(cnt), cnt, BITS_PER_SECTOR);
    hide FsInv, Formatted, BitmapBits, FormattedBits;
  }

  lemma FreshBits(dataStart: nat, cnt: nat)
    requires cnt >= 8 && BitmapBits(cnt) > 0
    ensures var v := Fresh(dataStart, cnt).v;
            && v.bits == FormattedBits(BitmapBits(cnt), cnt) && v.iBits == seq(BITS_PER_SECTOR, i => i == 0)
            && 0 in v.nodes && |v.nodes[0].sectors| == 13 && HasGap(v, 0, 1)
            && |v.bits| > 2 && !v.bits[1] && !v.bits[2]
  {
    BitmapBitsPositive(cnt);
    hide FileSystem.DotsBlock, BitmapBits;
  }

  lemma FreeInode(m: nat)
    requires m > 1
    ensures FirstFree(seq(m, i => i == 0)) == Some(1)
  {
    var bits := seq(m, i => i == 0);
    FirstFreeIsFirst(bits);
    assert ClearRun(bits, 1, 1);
    assert bits[0];
  }

  lemma TwoFree(bits: seq<bool>)
    requires |bits| > 2 && !bits[1] && !bits[2]
    ensures FreeCount(bits) > 1
  {
    hide FreeCount, FirstFree;
    FreeCountUpdate(bits, 1, true);
    assert !bits[1 := true][2];
    FreeCountZeroIff(bits[1 := true]);
  }

  lemma FreshCanCreate(dataStart: nat, cnt: nat, isDir: bool)
    requires dataStart > 0 && cnt >= 8 && BitmapBits(cnt) > 0
    ensures var f := Fresh(dataStart, cnt);
            && FsInv(f) && Roomy(f) && CanCreate(f.v, PATH_A) && Resolve(f.v, PATH_A) == Missing(0, 1) && HasSpace(f, 0, isDir)
  {
    FreshFacts(dataStart, cnt);
    PathFacts();
    var f := Fresh(dataStart, cnt);
    hide *;
    OnlyRootIsRoomy(f);
    RootSpace(f, isDir);
    MissingInRoot(f.v);
  }

  lemma OnlyRootIsRoomy(f: Fs)
    requires f.tree == RootTree() && 0 in f.v.nodes && |f.v.nodes[0].sectors| == 13 && HasGap(f.v, 0, 1) && FirstFree(f.v.iBits) == Some(1)
    ensures Roomy(f)
  {
    hide HasGap, FirstFree;
  }

  lemma RootSpace(f: Fs, isDir: bool)
    requires 0 in f.v.nodes && |f.v.nodes[0].sectors| == 13 && FirstFree(f.v.iBits) == Some(1) && FreeCount(f.v.bits) > 1
    ensures HasSpace(f, 0, isDir)
  {
    hide FirstFree, FreeCount, NeedsBlock;
  }

  lemma MissingInRoot(v: Volume)
    requires Listing(v, 0) == [DotEntry(0), DotDotEntry(0)]
    ensures CanCreate(v, PATH_A) && Resolve(v, PATH_A) == Missing(0, 1)
  {
    PathFacts();
    hide Listing, Components;
    assert Lookup([DotDotEntry(0)], A) == None;
    assert Lookup([DotEntry(0), DotDotEntry(0)], A) == Lookup([DotDotEntry(0)], A);
  }

  lemma PathFacts()
    ensures GoodPath(PATH_A) && !RootSpelling(PATH_A) && Components(PATH_A) == [A]
    ensures GoodPath(PATH_A_DOT) && !RootSpelling(PATH_A_DOT) && Components(PATH_A_DOT) == [A, DOT] && LastName(PATH_A_DOT) == DOT
  {
    assert [97, SLASH, 46][..1] == A && [97, SLASH, 46][1..] == [SLASH, 46] && A[..1] == A && DOT[..1] == DOT;
    FirstName(A, 1);
    FirstName(DOT, 1);
    FirstName([97, SLASH, 46], 1);
    assert [SLASH, 46][1..] == DOT && PATH_A[1..] == A && PATH_A_DOT[1..] == [97, SLASH, 46];
    assert Components([SLASH, 46]) == Components(DOT);
  }

  /** The new file or directory, found under its name. */
  lemma CreatedA(f: Fs, e: Entry, g: Fs)
    requires FsInv(f) && FsInv(g) && Creates(f, 0, e, g) && e.name == A && e.iNo == 1
    ensures 0 in g.tree && g.tree[0].isDir && 1 in g.tree && 1 in g.v.nodes && g.tree[1].isDir == (e.ftype == DIRECTORY)
    ensures Lookup(Listing(g.v, 0), A) == Some(e) && NewShape(g.v, e, 0)
  {
    hide *;
    RootIsDir(f);
    RootIsDir(g);
    FsFacts(g);
    CreatesFacts(f, 0, e, g);
    LookupAfterCreation(f, 0, e, g, 0, A);
  }

  lemma EmptyNeeds(v: Volume, e: Entry)
    requires NewShape(v, e, 0) && e.ftype == REGULAR
    ensures e.iNo in v.nodes && v.nodes[e.iNo] == EmptyNode() && |EmptyNode().sectors| == 13 && v.nodes[e.iNo].size == 0
    ensures forall n: nat :: n < BLOCK ==> FileData.Needed(v.nodes[e.iNo], n) == 1
  {}

  /** The file is still found under its name after it has been written. */
  lemma StillThere(g: Fs, i: nat, data: seq<byte>, h: Fs)
    requires FsInv(g) && FsInv(h) && i != 0 && Writes(g, i, data, h)
    ensures Listing(h.v, 0) == Listing(g.v, 0)
  {
    hide *;
    RootIsDir(g);
    FsPlace(g, 0);
    PlaceShape(g, 0);
    WritesFacts(g, i, data, h);
    SameShape(g.v, h.v, 0, g.tree[0]);
  }

  lemma WrittenSize(g: Fs, i: nat, data: seq<byte>, h: Fs)
    requires Writes(g, i, data, h)
    ensures i in g.v.nodes && i in h.v.nodes && h.v.nodes[i].size == g.v.nodes[i].size + |data|
    ensures h.tree == g.tree && FileData.FileOk(h.v, i) && FileData.Appended(g.v, h.v, i, data)
  {
    hide FileData.FileOk, Inv, Synced, Only, FileData.Contents;
  }

  /** The path to the file. */
  lemma FoundFile(v: Volume, e: Entry)
    requires Lookup(Listing(v, 0), A) == Some(e) && e.ftype == REGULAR
    ensures Resolve(v, PATH_A) == AtFile(e.iNo, 0, 1)
  {
    hide Lookup, Listing, Components;
    PathFacts();
    FileStep(v, 0, 0, A, e);
  }

  /** "/a" is created and `data` is written to it, on a fresh partition. */
  method CreateAndWrite(p: Partition, cnt: nat, data: seq<byte>, junk: nat) returns (file: FileData.File, ghost g: Fs, ghost h: Fs)
    requires cnt >= 8 && BitmapBits(cnt) > 0 && p.dataStart > 0 && p.View() == Fresh(p.dataStart, cnt).v && |data| < BLOCK
    modifies p
    ensures p.Valid() && h.v == p.View() && FsInv(g) && FsInv(h) && file == FileData.File(0x1_0000_0000 - 1, 1)
    ensures Writes(g, 1, data, h) && 1 in g.v.nodes && g.v.nodes[1] == EmptyNode()
    ensures Resolve(h.v, PATH_A) == AtFile(1, 0, 1)
  {
    ghost var f := Fresh(p.dataStart, cnt);
    assert f.v == p.View();
    FreshFacts(p.dataStart, cnt);
    FreshCanCreate(p.dataStart, cnt, false);
    PathFacts();
    hide *;
    ValidAt(p, f);
    var ok;
    ok, g := OpenCreate(p, f, PATH_A, true, junk);
    ghost var e := Entry(A, 1, REGULAR);
    CreatedA(f, e, g);
    EmptyNeeds(g.v, e);
    var r;
    file, r, h := Append(p, g, FileData.File(0, 1), data);
    StillThere(g, 1, data, h);
    FoundFile(h.v, e);
  }

  /** sys_rmdir removes a file of 48 bytes. */
  method RmdirOfAFile(p: Partition, cnt: nat, data: seq<byte>, junk: nat) returns (ret: int)
    requires cnt >= 8 && BitmapBits(cnt) > 0 && p.dataStart > 0 && p.View() == Fresh(p.dataStart, cnt).v && |data| == 2 * ENTRY
    modifies p
    ensures ret == 0
  {
    PathFacts();
    hide Fresh, FsInv, Inv, Writes, Components, BitmapBits, RootSpelling, GoodPath, Resolve, Removes;
    var file, g, h := CreateAndWrite(p, cnt, data, junk);
    WrittenSize(g, 1, data, h);
    ghost var last;
    ret, last := SysRmdir(p, h, PATH_A, junk);
  }

  /** A file that has just got its first bytes cannot be read: the ASSERT fails. */
  method ReadAfterFirstWrite(p: Partition, cnt: nat, data: seq<byte>, count: nat, junk: nat) returns (stops: bool)
    requires cnt >= 8 && BitmapBits(cnt) > 0 && p.dataStart > 0 && p.View() == Fresh(p.dataStart, cnt).v && |data| < BLOCK
    requires count < 0x1_0000_0000
    modifies p
    ensures stops
  {
    hide *;
    var file, g, h := CreateAndWrite(p, cnt, data, junk);
    WrittenSize(g, 1, data, h);
    var after, r;
    after, r, stops := FileData.FileRead(p, file, count);
  }

  /** The path with the dot leads to the new directory as well. */
  lemma FoundDot(v: Volume, e: Entry)
    requires Lookup(Listing(v, 0), A) == Some(e) && e.ftype == DIRECTORY && NewShape(v, e, 0)
    ensures Resolve(v, PATH_A_DOT) == AtDir(e.iNo, e.iNo) && e.iNo in v.nodes && v.nodes[e.iNo].size == 2 * ENTRY
  {
    PathFacts();
    EmptyIff(v, e.iNo);
    assert Lookup([DotEntry(e.iNo), DotDotEntry(0)], DOT) == Some(DotEntry(e.iNo));
    hide Lookup, Listing, Components, DirOk, Populated;
    assert Walk(v, e.iNo, 0, [DOT]) == AtDir(e.iNo, e.iNo) by { OneStep(v, e.iNo, 0, DOT, DotEntry(e.iNo)); }
    assert [A, DOT][1..] == [DOT];
  }

  /** sys_mkdir creates "/a", and sys_rmdir of "/a/." releases its inode and leaves the entry: the tree is
      no longer a tree. */
  method RmdirOfADot(p: Partition, cnt: nat, junk: nat) returns (ret: int, ghost g: Fs)
    requires cnt >= 8 && BitmapBits(cnt) > 0 && p.dataStart > 0 && p.View() == Fresh(p.dataStart, cnt).v
    modifies p
    ensures ret == 0 && g.v == p.View() && !FsInv(g)
  {
    ghost var f := Fresh(p.dataStart, cnt);
    assert f.v == p.View();
    FreshFacts(p.dataStart, cnt);
    FreshCanCreate(p.dataStart, cnt, true);
    PathFacts();
    hide *;
    ValidAt(p, f);
    ghost var made;
    ret, made := SysMkdir(p, f, PATH_A, junk);
    CreatedA(f, Entry(A, 1, DIRECTORY), made);
    FoundDot(made.v, Entry(A, 1, DIRECTORY));
    ret, g := SysRmdir(p, made, PATH_A_DOT, junk);
  }

  lemma ValidAt(p: Partition, f: Fs)
    requires FsInv(f) && p.View() == f.v
    ensures p.Valid()
  {}
}
