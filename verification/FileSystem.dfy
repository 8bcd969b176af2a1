/**
  The operations that change the tree (fs/file.c:99-187, fs/fs.c:449-613 and 665-689, fs/dir.c:392-412,
  fs/inode.c:169-234). The ghost value f says what the tree is; each method ends in a state that one of
  the transitions of module FileTree leads to.
 */
module FileSystem {
  import opened Outcomes
  import opened Bitmap
  import opened Bytes
  import opened Volume
  import opened Partitions
  import opened Directory
  import opened Directories
  import opened FileTree
  import FileData

  // ---------- Creating: what file_create and sys_mkdir share ----------

  /** Inode i has been taken and perhaps filled; nothing else has changed. */
  ghost predicate Begun(v: Volume, t: Volume, i: nat) {
    && i !in v.nodes && i < |v.iBits| && Inv(t) && t.diskBits == t.bits && t.dataStart == v.dataStart && t.leaked == v.leaked
    && |t.bits| == |v.bits| && t.nodes.Keys == v.nodes.Keys + {i} && t.table == v.table && t.iBits == v.iBits[i := true] && t.diskIBits == v.diskIBits
    && (forall j {:trigger SameNode(v, t, j)} :: j != i ==> SameNode(v, t, j))
  }

  lemma BegunFacts(v: Volume, t: Volume, i: nat)
    requires Begun(v, t, i)
    ensures i !in v.nodes && i in t.nodes && i < |v.iBits| && Inv(t) && t.diskBits == t.bits && t.dataStart == v.dataStart
    ensures forall j {:trigger SameNode(v, t, j)} :: j != i ==> SameNode(v, t, j)
  {
    hide SameNode, Inv;
  }

  lemma BeginsWith(v: Volume, i: nat)
    requires Inv(v) && Synced(v) && i < |v.iBits| && !v.iBits[i]
    ensures i !in v.nodes && Begun(v, AddNode(v, i), i)
  {
    AddNodeKeepsInv(v, i);
    hide Inv;
  }

  /** The directory is the same for sync_dir_entry. */
  lemma ReadyForEntry(f: Fs, t: Volume, d: nat, i: nat, name: seq<byte>)
    requires FsInv(f) && d in f.tree && f.tree[d].isDir && Begun(f.v, t, i) && i != d
    requires |f.v.nodes[d].sectors| == 13 && HasRoom(f.v, d) && Lookup(Listing(f.v, d), name).None?
    ensures DirOk(t, d) && Listing(t, d) == Listing(f.v, d) && NewNumber(Listing(t, d), i) && Lookup(Listing(t, d), name).None?
    ensures d in t.nodes && |t.nodes[d].sectors| == 13 && HasRoom(t, d) && (NeedsBlock(t, d) <==> NeedsBlock(f.v, d))
  {
    hide *;
    BegunFacts(f.v, t, i);
    FsFacts(f);
    FsPlace(f, d);
    ShapeFacts(f, d);
    SameNodeSameDir(f.v, t, d);
    FreeInodeIsNew(f, d, i);
    SameRoom(f.v, t, d);
  }

  lemma SameRoom(v: Volume, r: Volume, d: nat)
    requires SameNode(v, r, d) && d in v.nodes && |v.nodes[d].sectors| == 13 && HasRoom(v, d)
    ensures d in r.nodes && |r.nodes[d].sectors| == 13 && HasRoom(r, d) && (NeedsBlock(r, d) <==> NeedsBlock(v, d))
  {
    hide Entries;
    forall k: nat | k < 12
      ensures EntriesOf(r, d, k) == EntriesOf(v, d, k) && (HasGap(r, d, k) <==> HasGap(v, d, k))
    {
      assert BlockOf(r, d, k) == BlockOf(v, d, k);
      SameGap(v, r, d, k);
    }
    hide EntriesOf, BlockOf, HasGap;
    var k: nat :| k < 12 && HasGap(v, d, k);
    assert HasGap(r, d, k);
    SameFirstGaps(v, r, d);
  }

  lemma SameGap(v: Volume, r: Volume, d: nat, k: nat)
    requires d in v.nodes && d in r.nodes && r.nodes[d] == v.nodes[d] && k < |v.nodes[d].sectors| && BlockOf(r, d, k) == BlockOf(v, d, k)
    ensures EntriesOf(r, d, k) == EntriesOf(v, d, k) && (HasGap(r, d, k) <==> HasGap(v, d, k))
  {
    hide Entries;
    assert EntriesOf(r, d, k) == EntriesOf(v, d, k);
    hide EntriesOf, BlockOf;
  }

  lemma SameFirstGaps(v: Volume, r: Volume, d: nat)
    requires d in v.nodes && d in r.nodes && r.nodes[d] == v.nodes[d] && |v.nodes[d].sectors| == 13
    requires forall k: nat :: k < 12 ==> (HasGap(r, d, k) <==> HasGap(v, d, k))
    ensures NeedsBlock(r, d) <==> NeedsBlock(v, d)
  {
    hide HasGap;
    forall k: nat
      ensures FirstGap(r, d, k) <==> FirstGap(v, d, k)
    {}
    hide FirstGap;
  }

  /** The three writes at the end: both inodes and the inode bitmap. */
  function Written(u: Volume, d: nat, i: nat): Volume
    requires d in u.nodes && i in u.nodes && i < |u.iBits| && |u.diskIBits| == |u.iBits|
  {
    SyncInodeBit(SyncNode(SyncNode(u, d), i), i)
  }

  /** After the entry and the writes, the new inode is part of the tree. */
  lemma Grows(v: Volume, t: Volume, u: Volume, d: nat, i: nat, e: Entry)
    requires Synced(v) && Begun(v, t, i) && EntryAdded(t, u, d, e) && d in v.nodes && d != i && DirOk(v, d)
    requires Populated(v, d) ==> Populated(t, d)
    requires i < |v.iBits| && Listing(t, d) == Listing(v, d) && FirstSector(t, d) == FirstSector(v, d)
    ensures d in u.nodes && i in u.nodes && i < |u.iBits| && |u.diskIBits| == |u.iBits|
    ensures Grown(v, Written(u, d, i), d, i, e) && SameNode(t, Written(u, d, i), i)
  {
    hide *;
    BegunFacts(v, t, i);
    AddedFacts(t, u, d, e);
    WrittenFacts(v, t, u, d, i);
    var r := Written(u, d, i);
    SameNodeSameDir(u, r, d);
    ShapeIsPopulated(u, r, d);
    SameFirst(u, r, d);
    var a, b := AddedList(t, u, d, e);
    forall j: nat | j != d && j != i
      ensures SameNode(v, r, j)
    {
      SameNodeTransitive(v, t, u, j);
      SameNodeTransitive(v, u, r, j);
    }
    SameNodeTransitive(t, u, r, i);
    GrownFromParts(v, r, d, i, a, e, b);
  }

  lemma AddedFacts(t: Volume, u: Volume, d: nat, e: Entry)
    requires EntryAdded(t, u, d, e)
    ensures Inv(u) && DirOk(u, d) && (Populated(t, d) ==> Populated(u, d)) && FirstSector(u, d) == FirstSector(t, d)
    ensures u.dataStart == t.dataStart && u.nodes.Keys == t.nodes.Keys && u.leaked == t.leaked && u.iBits == t.iBits
    ensures u.diskIBits == t.diskIBits && u.table == t.table && u.diskBits == u.bits && |u.bits| == |t.bits|
    ensures forall j {:trigger SameNode(t, u, j)} :: j != d ==> SameNode(t, u, j)
  {
    hide DirOk, Populated, Listing, SameNode, Inv;
    forall j: nat | j != d
      ensures SameNode(t, u, j)
    {
      assert SameElsewhere(t, u, d, j);
    }
  }

  lemma AddedList(t: Volume, u: Volume, d: nat, e: Entry) returns (a: seq<Entry>, b: seq<Entry>)
    requires EntryAdded(t, u, d, e)
    ensures Listing(t, d) == a + b && Listing(u, d) == a + [e] + b
  {
    hide Listing, Only, Inv, DirOk, Populated;
    a, b :| Inserts(t, u, d, a, e, b);
  }

  /** The writes change the disk only, and make it agree with memory. */
  lemma WrittenFacts(v: Volume, t: Volume, u: Volume, d: nat, i: nat)
    requires Synced(v) && Begun(v, t, i) && Inv(u) && d in v.nodes && d != i && i < |v.iBits|
    requires u.nodes.Keys == t.nodes.Keys && u.leaked == t.leaked && u.iBits == t.iBits && u.dataStart == t.dataStart
    requires u.diskIBits == t.diskIBits && u.table == t.table && u.diskBits == u.bits && |u.bits| == |t.bits|
    requires forall j {:trigger SameNode(t, u, j)} :: j != d ==> SameNode(t, u, j)
    ensures d in u.nodes && i in u.nodes && i < |u.iBits| && |u.diskIBits| == |u.iBits|
    ensures var r := Written(u, d, i);
            && Inv(r) && Synced(r) && r.dataStart == v.dataStart && r.nodes.Keys == v.nodes.Keys + {i} && r.leaked == v.leaked
            && |r.bits| == |v.bits| && r.iBits == v.iBits[i := true] && forall j {:trigger SameNode(u, r, j)} :: SameNode(u, r, j)
  {
    hide Inv, BitmapSync;
    SyncNodeKeepsInv(u, d);
    SyncNodeKeepsInv(SyncNode(u, d), i);
    SyncInodeBitKeepsInv(SyncNode(SyncNode(u, d), i), i);
    TableAgrees(v, t, u, d, i);
  }

  lemma TableAgrees(v: Volume, t: Volume, u: Volume, d: nat, i: nat)
    requires v.table == v.nodes && Begun(v, t, i) && d in v.nodes && d != i
    requires u.nodes.Keys == t.nodes.Keys && u.table == t.table
    requires forall j {:trigger SameNode(t, u, j)} :: j != d ==> SameNode(t, u, j)
    ensures d in u.nodes && i in u.nodes && u.table[d := u.nodes[d]][i := u.nodes[i]] == u.nodes
  {
    hide Inv;
    forall j | j in u.nodes && j != d && j != i
      ensures j in u.table && u.table[j] == u.nodes[j]
    {
      assert SameNode(v, t, j) && SameNode(t, u, j);
    }
  }

  lemma GrownFromParts(v: Volume, r: Volume, d: nat, i: nat, a: seq<Entry>, e: Entry, b: seq<Entry>)
    requires d != i && i !in v.nodes && d in v.nodes && Inv(r) && Synced(r) && r.dataStart == v.dataStart && |r.bits| == |v.bits|
    requires r.nodes.Keys == v.nodes.Keys + {i} && r.leaked == v.leaked && i < |v.iBits| && r.iBits == v.iBits[i := true]
    requires forall j {:trigger SameNode(v, r, j)} :: j != d && j != i ==> SameNode(v, r, j)
    requires DirOk(r, d) && (Populated(v, d) ==> Populated(r, d)) && FirstSector(r, d) == FirstSector(v, d)
    requires Listing(v, d) == a + b && Listing(r, d) == a + [e] + b
    ensures Grown(v, r, d, i, e)
  {
    hide SameNode, Listing, Inv, DirOk, Populated;
    assert Inserts(v, r, d, a, e, b);
  }

  /** A free inode number, just taken. */
  lemma FreshInode(f: Fs, d: nat, i: nat)
    requires FsInv(f) && d in f.tree && f.tree[d].isDir && FirstFree(f.v.iBits) == Some(i)
    ensures i < |f.v.iBits| && i !in f.v.nodes && i !in f.tree && i != d && i != 0 && Begun(f.v, AddNode(f.v, i), i)
    ensures AddNode(f.v, i).nodes == f.v.nodes[i := EmptyNode()] && d < 256
  {
    hide Begun, Inv, PlaceOk, EntryOk, Synced;
    BeginsWith(f.v, i);
    FsPlace(f, d);
    ShapeFacts(f, d);
  }

  /** The rollback before anything has been written restores the volume. */
  lemma NothingHappened(v: Volume, i: nat)
    requires Inv(v) && i < |v.iBits| && !v.iBits[i] && i !in v.nodes
    ensures Abandon(AddNode(v, i), i) == v
  {
    var r := Abandon(AddNode(v, i), i);
    forall x | x in v.owner
      ensures v.owner[x].inode != i
    {
      assert OwnerOk(v, x);
    }
    hide Inv;
    assert r.iBits == v.iBits && r.nodes == v.nodes && r.owner == v.owner && r.leaked == v.leaked;
  }

  lemma Tables(f: Fs, t: Volume, u: Volume, d: nat, i: nat, e: Entry)
    requires FsInv(f) && d in f.tree && f.tree[d].isDir && Begun(f.v, t, i) && EntryAdded(t, u, d, e)
    ensures d in u.nodes && i in u.nodes && i < |u.iBits| && |u.diskIBits| == |u.iBits|
  {
    hide *;
    FsFacts(f);
    BegunFacts(f.v, t, i);
    AddedFacts(t, u, d, e);
    NodeHasBit(u, i);
    assert d in f.v.nodes;
    BegunKeys(f.v, t, i);
  }

  lemma BegunKeys(v: Volume, t: Volume, i: nat)
    requires Begun(v, t, i)
    ensures t.nodes.Keys == v.nodes.Keys + {i}
  {
    hide SameNode, Inv;
  }

  lemma NodeHasBit(u: Volume, i: nat)
    requires Inv(u) && i in u.nodes
    ensures i < |u.iBits| == |u.diskIBits| && |u.nodes[i].sectors| == 13
  {
    assert NodeOk(u, i);
  }

  lemma GoodNew(name: seq<byte>, i: nat, ftype: nat)
    requires GoodName(name) && i < 256 && (ftype == REGULAR || ftype == DIRECTORY)
    ensures GoodEntry(Entry(name, i, ftype))
  {}

  /** A name that a directory does not have is not a dot. */
  lemma NotADot(v: Volume, d: nat, e: Entry)
    requires DirOk(v, d) && Lookup(Listing(v, d), e.name).None?
    ensures !IsDot(e)
  {
    hide Listing, DirOk, EntriesOf, Lookup;
    ListingStarts(v, d);
    LookupFinds(Listing(v, d), e.name);
    assert Listing(v, d)[0] in Listing(v, d) && Listing(v, d)[1] in Listing(v, d);
  }

  lemma SameIsStep(f: Fs)
    ensures Step(f, f)
  {}

  lemma CreatesIsStep(f: Fs, d: nat, e: Entry, g: Fs)
    requires Creates(f, d, e, g)
    ensures Step(f, g)
  {
    hide Creates, Writes, Removes, Leaks;
  }

  lemma CreatesFromParts(f: Fs, d: nat, e: Entry, g: Fs)
    requires e.iNo !in f.tree && e.iNo < 256 && d in f.tree && f.tree[d].isDir && !IsDot(e) && SLASH !in e.name
    requires g.tree == f.tree[e.iNo := Place(e.ftype == DIRECTORY, d, f.tree[d].depth + 1)]
    requires Grown(f.v, g.v, d, e.iNo, e) && NewShape(g.v, e, d)
    ensures Creates(f, d, e, g)
  {}

  /** The end of a successful creation, common to files and directories. */
  lemma CreationEnds(f: Fs, t: Volume, u: Volume, d: nat, e: Entry, g: Fs)
    requires FsInv(f) && d in f.tree && f.tree[d].isDir && Begun(f.v, t, e.iNo) && EntryAdded(t, u, d, e)
    requires SLASH !in e.name && e.iNo !in f.tree && e.iNo < 256 && e.iNo != d && Lookup(Listing(f.v, d), e.name).None?
    requires d in u.nodes && e.iNo in u.nodes && e.iNo < |u.iBits| && |u.diskIBits| == |u.iBits| && g.v == Written(u, d, e.iNo)
    requires g.tree == f.tree[e.iNo := Place(e.ftype == DIRECTORY, d, f.tree[d].depth + 1)] && NewShape(t, e, d)
    ensures Creates(f, d, e, g) && FsInv(g) && Step(f, g)
  {
    hide *;
    FsFacts(f);
    FsPlace(f, d);
    ShapeFacts(f, d);
    BegunFacts(f.v, t, e.iNo);
    SameNodeSameDir(f.v, t, d);
    ShapeIsPopulated(f.v, t, d);
    SameFirst(f.v, t, d);
    NodeHasBit(t, e.iNo);
    BegunBits(f.v, t, e.iNo);
    Grows(f.v, t, u, d, e.iNo, e);
    NotADot(f.v, d, e);
    NewStays(t, g.v, e, d);
    CreatesFromParts(f, d, e, g);
    CreatesKeepsInv(f, d, e, g);
    CreatesIsStep(f, d, e, g);
  }

  lemma BegunBits(v: Volume, t: Volume, i: nat)
    requires Begun(v, t, i)
    ensures i < |v.iBits|
  {
    hide SameNode, Inv;
  }

  lemma NewStays(t: Volume, r: Volume, e: Entry, d: nat)
    requires NewShape(t, e, d) && SameNode(t, r, e.iNo)
    ensures NewShape(r, e, d)
  {
    hide Listing, DirOk, Populated;
    if e.ftype == DIRECTORY {
      hide SameNode;
      SameNodeSameDir(t, r, e.iNo);
      SamePopulated(t, r, e.iNo);
      SameFirst(t, r, e.iNo);
    }
  }

  lemma EmptyFile(t: Volume, name: seq<byte>, i: nat, d: nat)
    requires i in t.nodes && t.nodes[i] == EmptyNode()
    ensures NewShape(t, Entry(name, i, REGULAR), d)
  {
    hide Listing, DirOk, Populated, EmptyNode;
  }

  // ---------- file_create ----------

  /** file_create for a name that is not in the directory yet. It fails exactly without an inode, without
      a slot in the file table, or when the directory needs a block and none is free, and then leaves no
      trace; the inode bitmap on the disk has not been written by then. A kernel built with ASSERTs has
      stopped in bitmap_scan, unless it was the slot that was missing. */
  method FileCreate(p: Partition, ghost f: Fs, d: nat, name: seq<byte>, hasSlot: bool) returns (ok: bool, ghost g: Fs)
    requires p.Valid() && f.v == p.View() && FsInv(f) && d in f.tree && f.tree[d].isDir
    requires GoodName(name) && SLASH !in name && Lookup(Listing(f.v, d), name).None? && d in f.v.nodes && |f.v.nodes[d].sectors| == 13 && HasRoom(f.v, d)
    requires FirstFree(p.iBits).Some? ==> FirstFree(p.iBits).value < 256
    modifies p
    ensures p.Valid() && g.v == p.View() && FsInv(g) && Step(f, g)
    ensures ok ==> FirstFree(f.v.iBits).Some? && Creates(f, d, Entry(name, FirstFree(f.v.iBits).value, REGULAR), g)
    ensures !ok ==> g == f
    ensures ok <==> FirstFree(f.v.iBits).Some? && hasSlot && (FreeCount(f.v.bits) > 0 || !NeedsBlock(f.v, d))
    ensures p.stopped == (old(p.stopped) || (!ok && (FirstFree(f.v.iBits) == None || hasSlot)))
    ensures FreeCount(p.bits) + 1 >= FreeCount(f.v.bits)
  {
    hide Inv, FsInv, DirOk, EntryAdded, Creates, Step, Listing, Lookup, HasRoom, NewNumber, Begun, Abandon, AddNode, NeedsBlock;
    hide SyncNode, SyncInodeBit, FirstFree, FreeCount, Synced, NewShape, EmptyNode, GoodName, GoodEntry;
    FsFacts(f);
    SameIsStep(f);
    var r := p.InodeAlloc();
    if r == None {
      return false, f;
    }
    var i := r.value;
    ghost var t := p.View();
    FreshInode(f, d, i);
    NothingHappened(f.v, i);
    SameBits(f.v, i);
    if !hasSlot {
      p.InodeAbandon(i);
      return false, f;
    }
    var e := Entry(name, i, REGULAR);
    ReadyForEntry(f, t, d, i, name);
    GoodNew(name, i, REGULAR);
    BegunFacts(f.v, t, i);
    EmptyFile(t, name, i, d);
    ok := SyncDirEntry(p, d, e);
    if !ok {
      p.InodeAbandon(i);
      return false, f;
    }
    ghost var u := p.View();
    Tables(f, t, u, d, i, e);
    WrittenBits(u, d, i);
    p.InodeSync(d);
    p.InodeSync(i);
    p.InodeBitSync(i);
    g := Fs(p.View(), f.tree[i := Place(false, d, f.tree[d].depth + 1)]);
    CreationEnds(f, t, u, d, e, g);
  }

  lemma WrittenBits(u: Volume, d: nat, i: nat)
    requires d in u.nodes && i in u.nodes && i < |u.iBits| && |u.diskIBits| == |u.iBits|
    ensures Written(u, d, i).bits == u.bits
  {
    hide BitmapSync;
  }

  // ---------- sys_mkdir ----------

  /** The first block of a new directory: the entries "." and "..". */
  function DotsBlock(i: nat, d: nat): (r: seq<byte>)
    ensures |r| == SECTOR
  {
    Patch(Patch(Zeros(SECTOR), 0, Encode(DotEntry(i))), ENTRY, Encode(DotDotEntry(d)))
  }

  lemma DotsEntries(i: nat, d: nat)
    requires i < 256 && d < 256
    ensures var es := Entries(DotsBlock(i, d));
            |es| == PER_BLOCK && es[0] == DotEntry(i) && es[1] == DotDotEntry(d) && forall j :: 2 <= j < PER_BLOCK ==> es[j] == Nothing
  {
    var zs := Patch(Zeros(SECTOR), 0, Encode(DotEntry(i)));
    PatchEntries(Zeros(SECTOR), 0, Encode(DotEntry(i)));
    PatchEntries(zs, 1, Encode(DotDotEntry(d)));
    RoundTrip(DotEntry(i));
    RoundTrip(DotDotEntry(d));
    hide Encode, Decode, Patch;
    forall j: nat | j < PER_BLOCK
      ensures Entries(Zeros(SECTOR))[j] == Nothing
    {
      ZeroBlock(j);
    }
  }

  lemma AliveDots(es: seq<Entry>, i: nat, d: nat)
    requires |es| >= 2 && es[0] == DotEntry(i) && es[1] == DotDotEntry(d) && forall j :: 2 <= j < |es| ==> es[j] == Nothing
    ensures Alive(es) == [DotEntry(i), DotDotEntry(d)]
  {
    assert es == [es[0]] + ([es[1]] + es[2..]);
    AliveCons(es[0], [es[1]] + es[2..]);
    AliveCons(es[1], es[2..]);
    AliveNothing(es[2..]);
  }

  lemma {:induction false} NoBlocksNoEntries(v: Volume, i: nat, from: nat)
    requires i in v.nodes && |v.nodes[i].sectors| == 13 && forall k :: from <= k < 12 ==> v.nodes[i].sectors[k] == 0
    ensures Stretch(v, i, from, 12) == []
    decreases 12 - from
  {
    if from < 12 {
      NoBlocksNoEntries(v, i, from + 1);
      assert EntriesOf(v, i, from) == [];
    }
  }

  predicate SingleBlock(n: Node, lba: nat) {
    n.size == 2 * ENTRY && |n.sectors| == 13 && n.sectors[0] == lba && lba != 0 && forall k :: 1 <= k < 13 ==> n.sectors[k] == 0
  }

  /** An inode with the dots block is an empty directory. */
  lemma NewDirectory(t: Volume, i: nat, d: nat, lba: nat)
    requires i in t.nodes && SingleBlock(t.nodes[i], lba) && BlockOf(t, i, 0) == DotsBlock(i, d) && i < 256 && d < 256
    ensures DirOk(t, i) && Populated(t, i) && Listing(t, i) == [DotEntry(i), DotDotEntry(d)]
  {
    DotsEntries(i, d);
    var es := Entries(DotsBlock(i, d));
    assert EntriesOf(t, i, 0) == es;
    AliveDots(es, i, d);
    NoBlocksNoEntries(t, i, 1);
    hide Alive, DotsBlock, Entries;
    StretchStep(t, i, 0);
    hide Stretch, EntriesOf;
    assert Raw(t, i) == es by { assert es + [] == es; }
    DotsAreFine(es, i, d);
  }

  lemma DotsAreFine(es: seq<Entry>, i: nat, d: nat)
    requires |es| == PER_BLOCK && es[0] == DotEntry(i) && es[1] == DotDotEntry(d) && forall j :: 2 <= j < |es| ==> es[j] == Nothing
    requires i < 256 && d < 256
    ensures Dots(es, i) && AllWellFormed(es)
    ensures NamesDistinct([DotEntry(i), DotDotEntry(d)]) && NumbersDistinct([DotEntry(i), DotDotEntry(d)])
  {
    forall e | e in es
      ensures WellFormed(e)
    {
      var j :| 0 <= j < |es| && es[j] == e;
    }
  }

  /** sys_mkdir before it touches the parent: the inode has block x with the dots. */
  ghost predicate DirMade(v: Volume, t: Volume, i: nat, d: nat, x: nat) {
    && Begun(v, t, i) && x < |v.bits| && !v.bits[x] && x !in v.owner && x !in v.leaked
    && t.bits == v.bits[x := true] && t.owner == v.owner[x := Owner(i, 0)] && i in t.nodes && t.nodes == v.nodes[i := t.nodes[i]]
    && SingleBlock(t.nodes[i], v.dataStart + x) && BlockOf(t, i, 0) == DotsBlock(i, d)
  }

  lemma MadeFacts(v: Volume, t: Volume, i: nat, d: nat, x: nat)
    requires DirMade(v, t, i, d, x)
    ensures Begun(v, t, i) && i in t.nodes && SingleBlock(t.nodes[i], v.dataStart + x) && BlockOf(t, i, 0) == DotsBlock(i, d)
  {}

  lemma BegunGoesOn(v: Volume, t: Volume, r: Volume, i: nat)
    requires Begun(v, t, i) && Only(t, r, i) && Inv(r) && r.diskBits == r.bits && r.table == t.table
    ensures Begun(v, r, i)
  {
    hide SameNode, Inv;
    forall j: nat | j != i
      ensures SameNode(v, r, j)
    {
      assert SameElsewhere(t, r, i, j);
      SameNodeTransitive(v, t, r, j);
    }
  }

  /** Taking the block, writing it and setting the size. */
  lemma MadeStep(v: Volume, i: nat, d: nat, x: nat, u: Volume)
    requires Inv(v) && Synced(v) && i < |v.iBits| && !v.iBits[i] && i !in v.nodes && x < |v.bits| && !v.bits[x]
    requires |v.diskBits| == |v.bits| && WrittenTo(Take(AddNode(v, i), i, 0, x), u, i, 0, DotsBlock(i, d)) && i in u.nodes
    requires Inv(Resize(u, i, 2 * ENTRY))
    ensures DirMade(v, Resize(u, i, 2 * ENTRY), i, d, x)
  {
    hide BitmapSync, DotsBlock, BlockOf;
    var t0 := AddNode(v, i);
    BeginsWith(v, i);
    AddNodeKeepsInv(v, i);
    TakeIsLocal(t0, i, 0, x);
    TakeKeepsInv(t0, i, 0, x);
    var t1 := Take(t0, i, 0, x);
    var r := Resize(u, i, 2 * ENTRY);
    ResizeIsLocal(u, i, 2 * ENTRY);
    OnlyTransitive(t0, t1, u, i);
    OnlyTransitive(t0, u, r, i);
    hide Inv, Only;
    assert t1.dataStart > 0 by { StartsLater(v); }
    BegunGoesOn(v, t0, r, i);
    assert BlockOf(r, i, 0) == BlockOf(u, i, 0);
  }

  lemma StartsLater(v: Volume)
    requires Inv(v)
    ensures v.dataStart > 0
  {}

  /** The block of a failed sys_mkdir is lost. */
  lemma LosesBlock(f: Fs, t: Volume, i: nat, d: nat, x: nat)
    requires FsInv(f) && DirMade(f.v, t, i, d, x) && i < |t.iBits| && !f.v.iBits[i] && Inv(Abandon(t, i))
    ensures i < |f.v.iBits| && Leaks(f, x, Fs(Abandon(t, i), f.tree))
  {
    hide FsInv, Inv, DotsBlock, SameNode, BlockOf, EmptyNode;
    FsFacts(f);
    var r := Abandon(t, i);
    NobodyOwns(f.v, i);
    assert r.iBits == f.v.iBits && r.nodes == f.v.nodes && r.owner == f.v.owner && r.leaked == f.v.leaked + {x};
    OthersSame(f.v, t, i);
  }

  lemma OthersSame(v: Volume, t: Volume, i: nat)
    requires Begun(v, t, i) && i < |t.iBits|
    ensures forall j {:trigger SameNode(v, Abandon(t, i), j)} :: SameNode(v, Abandon(t, i), j)
  {
    hide Inv;
    var r := Abandon(t, i);
    forall j: nat
      ensures SameNode(v, r, j)
    {
      assert j != i ==> SameNode(v, t, j);
    }
  }

  lemma NobodyOwns(v: Volume, i: nat)
    requires Inv(v) && i !in v.nodes
    ensures forall x :: x in v.owner ==> v.owner[x].inode != i
  {
    forall x | x in v.owner
      ensures v.owner[x].inode != i
    {
      assert OwnerOk(v, x);
    }
  }

  lemma LeakIsStep(f: Fs, x: nat, g: Fs)
    requires FsInv(f) && Leaks(f, x, g)
    ensures Step(f, g) && FsInv(g)
  {
    LeaksKeepsInv(f, x, g);
    hide Creates, Writes, Removes, Leaks;
  }

  /** The first data block is the root's. */
  lemma RootBlock(f: Fs)
    requires FsInv(f)
    ensures |f.v.bits| > 0 && f.v.bits[0] && 0 in f.v.owner && f.v.owner[0] == Owner(0, 0)
  {
    hide *;
    FsFacts(f);
    FsPlace(f, 0);
    ShapeFacts(f, 0);
    AnchorFacts(f, 0);
    DirFacts(f.v, 0);
    FirstBlockOwned(f.v, 0);
  }

  lemma FirstBlockOwned(v: Volume, i: nat)
    requires Inv(v) && i in v.nodes && |v.nodes[i].sectors| == 13 && v.nodes[i].sectors[0] != 0 && FirstSector(v, i) == v.dataStart
    ensures |v.bits| > 0 && v.bits[0] && 0 in v.owner && v.owner[0] == Owner(i, 0)
  {
    assert SlotOk(v, i, 0);
  }

  lemma NewDirShape(v: Volume, t: Volume, d: nat, i: nat, x: nat, name: seq<byte>)
    requires DirMade(v, t, i, d, x) && i < 256 && d < 256
    ensures NewShape(t, Entry(name, i, DIRECTORY), d)
  {
    hide *;
    MadeFacts(v, t, i, d, x);
    NewDirectory(t, i, d, v.dataStart + x);
    DirShapeFromParts(t, name, i, d);
  }

  lemma DirShapeFromParts(t: Volume, name: seq<byte>, i: nat, d: nat)
    requires i in t.nodes && DirOk(t, i) && Populated(t, i) && Listing(t, i) == [DotEntry(i), DotDotEntry(d)]
    ensures NewShape(t, Entry(name, i, DIRECTORY), d)
  {
    hide DirOk, Populated, Listing;
  }

  /** The block of the new directory is allocated and written, or there is none. */
  method WriteDots(p: Partition, ghost f: Fs, d: nat, i: nat) returns (lba: Option<nat>)
    requires p.Valid() && FsInv(f) && i < |f.v.iBits| && !f.v.iBits[i] && i !in f.v.nodes && p.View() == AddNode(f.v, i)
    requires Begun(f.v, p.View(), i)
    modifies p`blocks, p`bits, p`diskBits, p`nodes, p`owner, p`stopped
    ensures p.Valid() && i in p.nodes && p.stopped == (old(p.stopped) || lba == None)
    ensures match FirstFree(f.v.bits)
            case None => lba == None && p.View() == old(p.View())
            case Some(x) => lba == Some(p.dataStart + x) && DirMade(f.v, p.View(), i, d, x)
  {
    hide Inv, FsInv, Begun, AddNode, FirstFree, Synced, EmptyNode, Take, WrittenTo, DotsBlock, DirMade;
    FsFacts(f);
    EmptyNodeFacts();
    SameBits(f.v, i);
    ghost var t := p.View();
    lba := p.BlockAllocFor(i, 0);
    if lba == None {
      return;
    }
    ghost var x := FirstFree(f.v.bits).value;
    RootBlock(f);
    assert lba.value - p.dataStart != 0;
    TakenNode(t, i, x);
    p.WriteBlock(i, 0, DotsBlock(i, d));
    ghost var u := p.View();
    p.SetSize(i, 2 * ENTRY);
    MadeStep(f.v, i, d, x, u);
  }

  /** sys_mkdir for a name that is not in the directory yet. It fails exactly without an inode or without
      a block for the dots, and then nothing has changed; or without a block for the entry when one is
      needed, and then the block for the dots is lost. All this in a kernel built without ASSERTs: one
      built with them has stopped in bitmap_scan whenever it fails. */
  method MakeDir(p: Partition, ghost f: Fs, d: nat, name: seq<byte>) returns (ok: bool, ghost g: Fs)
    requires p.Valid() && f.v == p.View() && FsInv(f) && d in f.tree && f.tree[d].isDir
    requires GoodName(name) && SLASH !in name && Lookup(Listing(f.v, d), name).None? && d in f.v.nodes && |f.v.nodes[d].sectors| == 13 && HasRoom(f.v, d)
    requires FirstFree(p.iBits).Some? ==> FirstFree(p.iBits).value < 256
    modifies p
    ensures p.Valid() && g.v == p.View() && FsInv(g) && Step(f, g)
    ensures ok ==> FirstFree(f.v.iBits).Some? && Creates(f, d, Entry(name, FirstFree(f.v.iBits).value, DIRECTORY), g)
    ensures ok <==> FirstFree(f.v.iBits).Some? && FreeCount(f.v.bits) > 0 && (FreeCount(f.v.bits) > 1 || !NeedsBlock(f.v, d))
    ensures p.stopped == (old(p.stopped) || !ok)
    ensures !ok ==>
              if FirstFree(f.v.iBits) == None || FreeCount(f.v.bits) == 0 then g == f
              else FirstFree(f.v.bits).Some? && Leaks(f, FirstFree(f.v.bits).value, g)
  {
    hide Inv, FsInv, DirOk, EntryAdded, Creates, Step, Listing, Lookup, HasRoom, NewNumber, Begun, Abandon, AddNode, NeedsBlock;
    hide SyncNode, SyncInodeBit, FirstFree, FreeCount, Synced, NewShape, EmptyNode, GoodName, GoodEntry, DirMade, Leaks;
    FsFacts(f);
    SameIsStep(f);
    FreeCountZeroIff(p.bits);
    var r := p.InodeAlloc();
    if r == None {
      return false, f;
    }
    var i := r.value;
    FreshInode(f, d, i);
    NothingHappened(f.v, i);
    SameBits(f.v, i);
    var lba := WriteDots(p, f, d, i);
    if lba == None {
      p.InodeAbandon(i);
      return false, f;
    }
    ghost var x := FirstFree(f.v.bits).value;
    ghost var t := p.View();
    MadeFacts(f.v, t, i, d, x);
    NewDirShape(f.v, t, d, i, x, name);
    OneLessFree(f.v, t, i, d, x);
    var e := Entry(name, i, DIRECTORY);
    ReadyForEntry(f, t, d, i, name);
    GoodNew(name, i, DIRECTORY);
    BegunFacts(f.v, t, i);
    ok := SyncDirEntry(p, d, e);
    if !ok {
      p.InodeAbandon(i);
      g := Fs(p.View(), f.tree);
      LosesBlock(f, t, i, d, x);
      LeakIsStep(f, x, g);
      return;
    }
    ghost var u := p.View();
    Tables(f, t, u, d, i, e);
    p.InodeSync(d);
    p.InodeSync(i);
    p.InodeBitSync(i);
    g := Fs(p.View(), f.tree[i := Place(true, d, f.tree[d].depth + 1)]);
    CreationEnds(f, t, u, d, e, g);
  }

  lemma EmptyNodeFacts()
    ensures EmptyNode().size == 0 && |EmptyNode().sectors| == 13 && forall k :: 0 <= k < 13 ==> EmptyNode().sectors[k] == 0
  {}

  lemma SameBits(v: Volume, i: nat)
    requires i < |v.iBits|
    ensures AddNode(v, i).bits == v.bits && AddNode(v, i).diskBits == v.diskBits && AddNode(v, i).dataStart == v.dataStart
    ensures i in AddNode(v, i).nodes && AddNode(v, i).nodes[i] == EmptyNode()
  {
    hide EmptyNode;
  }

  lemma TakenNode(t: Volume, i: nat, x: nat)
    requires i in t.nodes && |t.nodes[i].sectors| == 13 && x < |t.bits| && |t.diskBits| == |t.bits|
    ensures Take(t, i, 0, x).nodes == t.nodes[i := WithSector(t.nodes[i], 0, t.dataStart + x)]
  {
    hide BitmapSync;
  }

  lemma OneLessFree(v: Volume, t: Volume, i: nat, d: nat, x: nat)
    requires DirMade(v, t, i, d, x)
    ensures FreeCount(v.bits) == FreeCount(t.bits) + 1
  {
    hide Begun, FreeCount, DotsBlock, BlockOf, EmptyNode;
    FreeCountUpdate(v.bits, x, true);
  }

  // ---------- sys_write ----------

  /** file_write on an inode of the tree. When the blocks do not suffice a kernel built with ASSERTs has
      stopped; the blocks that one built without them leaves with the inode are not part of the tree. */
  method Append(p: Partition, ghost f: Fs, file: FileData.File, data: seq<byte>) returns (after: FileData.File, r: Option<nat>, ghost g: Fs)
    requires p.Valid() && f.v == p.View() && FsInv(f) && file.inode in f.tree && !f.tree[file.inode].isDir && file.inode in p.nodes
    requires |p.nodes[file.inode].sectors| == 13 && p.nodes[file.inode].size + |data| < FileData.MAX_DIRECT
    modifies p
    ensures p.Valid() && file.inode in f.v.nodes && |f.v.nodes[file.inode].sectors| == 13
    ensures (r == None <==> FileData.Needed(f.v.nodes[file.inode], |data|) > FreeCount(f.v.bits)) && p.stopped == (old(p.stopped) || r == None)
    ensures r == None ==> g == f && (FreeCount(f.v.bits) == 0 && f.v.nodes[file.inode].sectors[0] == 0 ==> p.View() == f.v)
    ensures r != None ==> r == Some(|data|) && g.v == p.View() && FsInv(g) && Step(f, g) && Writes(f, file.inode, data, g)
    ensures r != None ==> after == file.(fdPos := FileData.LastByte(f.v.nodes[file.inode].size))
  {
    hide Inv, FsInv, Step, Writes, Synced, FileData.Appended, FileData.FileOk, FileData.Needed, FreeCount;
    FsFacts(f);
    FsPlace(f, file.inode);
    ShapeFacts(f, file.inode);
    SameIsStep(f);
    RootBlock(f);
    after, r := FileData.FileWrite(p, file, data);
    g := f;
    if r != None {
      g := Fs(p.View(), f.tree);
      WriteIsStep(f, file.inode, data, g);
    }
  }

  lemma WriteIsStep(f: Fs, i: nat, data: seq<byte>, g: Fs)
    requires FsInv(f) && i in f.tree && !f.tree[i].isDir && g.tree == f.tree
    requires i in f.v.nodes && i in g.v.nodes && FileData.Appended(f.v, g.v, i, data)
    ensures Writes(f, i, data, g) && Step(f, g) && FsInv(g)
  {
    hide FileData.Appended, FsInv, Creates, Removes, Leaks;
    WritesKeepsInv(f, i, data, g);
  }

  // ---------- inode_release ----------

  /** The first k blocks of inode c have been given back, and nothing else has changed. */
  ghost predicate Giving(t: Volume, r: Volume, c: nat, k: nat) {
    && Inv(r) && Only(t, r, c) && r.table == t.table && r.blocks == t.blocks && r.diskBits == r.bits
    && c in t.nodes && c in r.nodes && |t.nodes[c].sectors| == 13 && |r.nodes[c].sectors| == 13
    && (forall m :: 0 <= m < 13 ==> r.nodes[c].sectors[m] == if m < k then 0 else t.nodes[c].sectors[m])
    && (forall x {:trigger BitGiven(t, r, c, k, x)} :: BitGiven(t, r, c, k, x))
  }

  predicate BitGiven(t: Volume, r: Volume, c: nat, k: nat, x: nat) {
    x < |t.bits| && x < |r.bits| ==> (r.bits[x] <==> t.bits[x] && !(x in t.owner && t.owner[x].inode == c && t.owner[x].slot < k))
  }

  lemma GivingStarts(t: Volume, c: nat)
    requires Inv(t) && t.diskBits == t.bits && c in t.nodes
    ensures Giving(t, t, c, 0)
  {
    assert NodeOk(t, c);
    hide Inv, Only;
    OnlyItself(t, c);
  }

  lemma OnlyItself(t: Volume, c: nat)
    ensures Only(t, t, c)
  {
    forall j ensures SameElsewhere(t, t, c, j) {}
  }

  lemma GivingFacts(t: Volume, r: Volume, c: nat, k: nat)
    requires Giving(t, r, c, k) && k < 13
    ensures Inv(r) && c in r.nodes && |r.nodes[c].sectors| == 13 && c in t.nodes && |t.nodes[c].sectors| == 13
    ensures r.nodes[c].sectors[k] == t.nodes[c].sectors[k] && r.diskBits == r.bits && r.dataStart == t.dataStart
    ensures |r.bits| == |t.bits|
  {
    hide Inv, SameElsewhere;
  }

  /** A position without a block. */
  lemma GivingSkips(t: Volume, r: Volume, c: nat, k: nat)
    requires Giving(t, r, c, k) && k < 13 && Inv(t) && r.nodes[c].sectors[k] == 0
    ensures Giving(t, r, c, k + 1)
  {
    hide Only;
    var next := k + 1;
    forall x ensures BitGiven(t, r, c, next, x) {
      assert BitGiven(t, r, c, k, x) && OwnerOk(t, x);
    }
    hide Inv;
  }

  /** A position with a block. */
  lemma GivingGoesOn(t: Volume, r: Volume, c: nat, k: nat)
    requires Giving(t, r, c, k) && k < 13 && Inv(t) && r.nodes[c].sectors[k] != 0 && |r.diskBits| == |r.bits|
    ensures r.dataStart <= r.nodes[c].sectors[k] < r.dataStart + |r.bits|
    ensures Giving(t, Give(r, c, k), c, k + 1)
  {
    hide BitmapSync, BlockOf;
    GivingFacts(t, r, c, k);
    GiveKeepsInv(r, c, k);
    GiveIsLocal(r, c, k);
    var s := Give(r, c, k);
    OnlyTransitive(t, r, s, c);
    hide Only;
    assert SlotOk(t, c, k);
    var next := k + 1;
    forall x ensures BitGiven(t, s, c, next, x) {
      assert BitGiven(t, r, c, k, x) && OwnerOk(t, x);
    }
    hide Inv;
  }

  /** When all blocks are given back, dropping the inode ends the release. */
  lemma GivingEnds(t: Volume, r: Volume, c: nat)
    requires Giving(t, r, c, 13) && Inv(t) && Synced(t)
    ensures c < |r.iBits| && |r.diskIBits| == |r.iBits| && Released(t, DropNode(r, c), c)
  {
    hide BitmapSync;
    assert NodeOk(r, c);
    DropNodeKeepsInv(r, c);
    var s := DropNode(r, c);
    hide SameNode;
    forall j: nat | j != c
      ensures SameNode(t, s, j) && (j in t.nodes <==> j in s.nodes) && (j in t.nodes ==> t.nodes[j] == s.nodes[j])
    {
      assert SameElsewhere(t, r, c, j);
      SameAfterDrop(r, c, j);
      SameNodeTransitive(t, r, s, j);
      SameNodeMeans(t, s, j);
    }
    forall x ensures BitReleased(t, s, c, x) {
      assert BitGiven(t, r, c, 13, x) && OwnerOk(t, x);
      if x in t.owner {
        assert NodeOk(t, t.owner[x].inode);
      }
    }
    hide Inv, Only;
    assert s.nodes == t.nodes - {c};
  }

  lemma SameAfterDrop(r: Volume, c: nat, j: nat)
    requires j != c && c < |r.iBits| && |r.diskIBits| == |r.iBits|
    ensures SameNode(r, DropNode(r, c), j)
  {
    hide BitmapSync;
  }

  lemma SameNodeMeans(t: Volume, s: Volume, j: nat)
    requires SameNode(t, s, j)
    ensures (j in t.nodes <==> j in s.nodes) && (j in t.nodes ==> t.nodes[j] == s.nodes[j])
  {}

  /** inode_release of an inode other than the root, with the ASSERT that none of its blocks is the first
      one. The in-memory inode goes away, so that clearing its i_sectors here shows nowhere. */
  method InodeRelease(p: Partition, c: nat)
    requires p.Valid() && Synced(p.View()) && c in p.nodes && |p.nodes[c].sectors| == 13 && p.nodes[c].sectors[12] == 0
    requires 0 in p.owner && p.owner[0].inode != c
    modifies p`bits, p`diskBits, p`iBits, p`diskIBits, p`nodes, p`table, p`owner
    ensures p.Valid() && Released(old(p.View()), p.View(), c)
  {
    hide Inv, Giving, Released, Give, DropNode, Synced;
    ghost var t := p.View();
    SyncedFacts(t);
    GivingStarts(t, c);
    var allBlocks := p.nodes[c].sectors[..12];
    var blockIdx := 0;
    while blockIdx < 12
      invariant 0 <= blockIdx <= 12 && p.Valid() && Giving(t, p.View(), c, blockIdx)
    {
      GivingFacts(t, p.View(), c, blockIdx);
      if allBlocks[blockIdx] != 0 {
        NotTheFirst(t, c, blockIdx);
        assert allBlocks[blockIdx] - p.dataStart > 0;
        GivingGoesOn(t, p.View(), c, blockIdx);
        p.BlockFree(c, blockIdx);
      } else {
        GivingSkips(t, p.View(), c, blockIdx);
      }
      blockIdx := blockIdx + 1;
    }
    GivingFacts(t, p.View(), c, 12);
    GivingSkips(t, p.View(), c, 12);
    AllGiven(t, p.View(), c);
    GivingEnds(t, p.View(), c);
    p.InodeDrop(c);
  }

  lemma SyncedFacts(t: Volume)
    requires Synced(t)
    ensures t.diskBits == t.bits
  {}

  lemma AllGiven(t: Volume, r: Volume, c: nat)
    requires Giving(t, r, c, 13)
    ensures c in r.nodes && forall k :: 0 <= k < |r.nodes[c].sectors| ==> r.nodes[c].sectors[k] == 0
  {
    hide Inv, Only, BitGiven;
  }

  lemma NotTheFirst(t: Volume, c: nat, k: nat)
    requires Inv(t) && c in t.nodes && k < 13 && |t.nodes[c].sectors| == 13 && t.nodes[c].sectors[k] != 0
    requires 0 in t.owner && t.owner[0].inode != c
    ensures t.nodes[c].sectors[k] - t.dataStart > 0
  {
    assert SlotOk(t, c, k);
  }

  // ---------- sys_unlink and sys_rmdir ----------

  /** The directory of an inode has an entry for it. */
  lemma ChildIsWanted(f: Fs, d: nat, c: nat)
    requires FsInv(f) && c in f.tree && c != 0 && f.tree[c].parent == d
    ensures d != c && d in f.tree && f.tree[d].isDir && exists x :: x in Listing(f.v, d) && Wanted(x, c)
  {
    hide *;
    FsPlace(f, c);
    ShapeFacts(f, c);
    AnchorFacts(f, c);
    FsPlace(f, d);
    ShapeFacts(f, d);
    NamedIsWanted(f.v, d, c, f.tree[c].isDir);
  }

  lemma NamedIsWanted(v: Volume, d: nat, c: nat, isDir: bool)
    requires Named(v, d, c, isDir) && DirOk(v, d)
    ensures exists x :: x in Listing(v, d) && Wanted(x, c)
  {
    DirFacts(v, d);
    hide DirOk, Raw, AllWellFormed;
    var x :| x in Listing(v, d) && EntryFor(x, c, isDir);
    InAlive(Raw(v, d), x);
    hide Listing;
    assert Wanted(x, c);
  }

  /** Nobody has an entry for itself: "." does not count. */
  lemma NotItsOwnChild(f: Fs, c: nat, x: Entry)
    requires FsInv(f) && c in f.tree && f.tree[c].isDir && x in Listing(f.v, c)
    ensures !Wanted(x, c)
  {
    hide *;
    FsEntry(f, c, x);
    FsPlace(f, c);
    ShapeFacts(f, c);
    AnchorFacts(f, c);
    if Wanted(x, c) {
      WantedFacts(x, c);
      EntryFacts(f, c, x);
    }
  }

  lemma WantedFacts(x: Entry, c: nat)
    requires Wanted(x, c)
    ensures Live(x) && !IsDot(x) && x.iNo == c
  {}

  /** What inode_release needs, after the entry has gone. */
  lemma ReadyForRelease(f: Fs, t: Volume, d: nat, c: nat, e: Entry)
    requires FsInv(f) && d in f.tree && f.tree[d].isDir && EntryRemoved(f.v, t, d, e) && c in f.tree && c != 0 && c != d
    ensures Synced(t) && c in t.nodes && |t.nodes[c].sectors| == 13 && t.nodes[c].sectors[12] == 0
    ensures 0 in t.owner && t.owner[0].inode != c
  {
    hide *;
    FsFacts(f);
    RemovedFacts(f.v, t, d, e);
    RemovedKeepsInv(f.v, t, d, e);
    FsPlace(f, c);
    PlaceShape(f, c);
    SameShape(f.v, t, c, f.tree[c]);
    NoTable(t, c, f.tree[c]);
    RootAfter(f, t, d, e);
  }

  lemma RemovedKeepsInv(v: Volume, t: Volume, d: nat, e: Entry)
    requires EntryRemoved(v, t, d, e)
    ensures Inv(t)
  {}

  lemma NoTable(t: Volume, c: nat, p: Place)
    requires Shape(t, c, p)
    ensures c in t.nodes && |t.nodes[c].sectors| == 13 && t.nodes[c].sectors[12] == 0
  {
    hide FileData.BlockCount;
    if p.isDir {
      DirFacts(t, c);
    }
  }

  lemma RootAfter(f: Fs, t: Volume, d: nat, e: Entry)
    requires FsInv(f) && EntryRemoved(f.v, t, d, e)
    ensures 0 in t.owner && t.owner[0] == Owner(0, 0)
  {
    hide *;
    FsFacts(f);
    FsPlace(f, 0);
    ShapeFacts(f, 0);
    AnchorFacts(f, 0);
    RemovedFacts(f.v, t, d, e);
    RemovedKeepsInv(f.v, t, d, e);
    if d != 0 {
      SameNodeSameDir(f.v, t, 0);
      SameFirst(f.v, t, 0);
    }
    DirFacts(t, 0);
    FirstBlockOwned(t, 0);
  }

  lemma RemovesFromParts(f: Fs, d: nat, c: nat, e: Entry, t: Volume, g: Fs)
    requires d in f.tree && f.tree[d].isDir && c in f.tree && (f.tree[c].isDir ==> OnlyDots(f.v, c))
    requires Wanted(e, c) && e in Listing(f.v, d) && g.tree == f.tree - {c}
    requires EntryRemoved(f.v, t, d, e) && Released(t, g.v, c) && FsInv(f)
    ensures Removes(f, d, c, e, t, g) && FsInv(g) && Step(f, g)
  {
    hide FsInv, EntryRemoved, Released, Creates, Writes, Leaks, OnlyDots, Listing;
    RemovesKeepsInv(f, d, c, e, t, g);
  }

  /** delete_dir_entry and inode_release, for a file or an empty directory found in d. */
  method RemoveChild(p: Partition, ghost f: Fs, d: nat, c: nat) returns (ghost e: Entry, ghost t: Volume, ghost g: Fs)
    requires p.Valid() && f.v == p.View() && FsInv(f) && c in f.tree && c != 0 && f.tree[c].parent == d
    requires f.tree[c].isDir ==> OnlyDots(f.v, c)
    modifies p
    ensures p.Valid() && g.v == p.View() && FsInv(g) && Step(f, g) && Removes(f, d, c, e, t, g) && p.stopped == old(p.stopped)
  {
    hide Inv, FsInv, DirOk, EntryRemoved, Released, Removes, Step, Listing, Synced, OnlyDots, Wanted;
    FsFacts(f);
    ChildIsWanted(f, d, c);
    FsPlace(f, d);
    ShapeFacts(f, d);
    var found := DeleteDirEntry(p, d, c);
    e := found.value;
    t := p.View();
    RemovedWasThere(f.v, t, d, e, c);
    ReadyForRelease(f, t, d, c, e);
    InodeRelease(p, c);
    g := Fs(p.View(), f.tree - {c});
    RemovesFromParts(f, d, c, e, t, g);
  }

  /** The inodes of file_table's slots; None for a free one. */
  type FileTable = seq<Option<nat>>

  /** sys_unlink of file c, found in d; a file that is open in any slot of file_table is left alone. */
  method Unlink(p: Partition, ghost f: Fs, d: nat, c: nat, fileTable: FileTable) returns (ok: bool, ghost g: Fs)
    requires p.Valid() && f.v == p.View() && FsInv(f) && c in f.tree && c != 0 && f.tree[c].parent == d && !f.tree[c].isDir
    modifies p
    ensures p.Valid() && g.v == p.View() && FsInv(g) && Step(f, g) && p.stopped == old(p.stopped)
    ensures ok <==> Some(c) !in fileTable
    ensures if ok then exists e, t :: Removes(f, d, c, e, t, g) else g == f
  {
    hide Inv, FsInv, Removes, Step, OnlyDots;
    SameIsStep(f);
    var fileIdx := 0;
    while fileIdx < |fileTable|
      invariant 0 <= fileIdx <= |fileTable| && Some(c) !in fileTable[..fileIdx]
    {
      if fileTable[fileIdx] == Some(c) {
        return false, f;
      }
      fileIdx := fileIdx + 1;
    }
    assert fileTable[..|fileTable|] == fileTable;
    ghost var e, t;
    e, t, g := RemoveChild(p, f, d, c);
    ok := true;
  }

  /** An inode of 48 bytes is a directory with dots only, or a file of that size; it has at most one
      block, the first. */
  lemma SmallInode(f: Fs, c: nat)
    requires FsInv(f) && c in f.tree
    ensures c in f.v.nodes && |f.v.nodes[c].sectors| == 13
    ensures f.v.nodes[c].size == 2 * ENTRY ==> forall k :: 1 <= k < 13 ==> f.v.nodes[c].sectors[k] == 0
    ensures f.tree[c].isDir ==> (f.v.nodes[c].size == 2 * ENTRY <==> OnlyDots(f.v, c))
  {
    hide *;
    FsFacts(f);
    FsPlace(f, c);
    ShapeFacts(f, c);
    if f.tree[c].isDir {
      SmallDir(f.v, c);
    } else {
      SmallFile(f.v, c);
    }
  }

  lemma SmallFile(v: Volume, c: nat)
    requires FileData.FileOk(v, c)
    ensures c in v.nodes && |v.nodes[c].sectors| == 13
    ensures v.nodes[c].size == 2 * ENTRY ==> forall k :: 1 <= k < 13 ==> v.nodes[c].sectors[k] == 0
  {}

  lemma SmallDir(v: Volume, c: nat)
    requires DirOk(v, c) && Populated(v, c)
    ensures c in v.nodes && |v.nodes[c].sectors| == 13
    ensures v.nodes[c].size == 2 * ENTRY <==> OnlyDots(v, c)
    ensures v.nodes[c].size == 2 * ENTRY ==> forall k :: 1 <= k < 13 ==> v.nodes[c].sectors[k] == 0
  {
    DirFacts(v, c);
    EmptyIff(v, c);
    hide DirOk, Listing, Populated, EntriesOf, Raw, AllWellFormed, NamesDistinct, NumbersDistinct, Dots;
    if v.nodes[c].size == 2 * ENTRY {
      forall k: nat | 1 <= k < 13
        ensures v.nodes[c].sectors[k] == 0
      {
        if v.nodes[c].sectors[k] != 0 && k < 12 {
          LaterBlock(v, c, k);
        }
      }
    }
  }

  /** A directory with a second block has a third entry. */
  lemma LaterBlock(v: Volume, c: nat, k: nat)
    requires DirOk(v, c) && Populated(v, c) && 1 <= k < 12 && c in v.nodes && |v.nodes[c].sectors| == 13 && v.nodes[c].sectors[k] != 0
    ensures |Listing(v, c)| > 2
  {
    DirFacts(v, c);
    PopulatedAt(v, c, k);
    hide *;
    ListingAt(v, c, k);
    StretchSplit(v, c, 0, 1, k);
    Directories.OneBlock(v, c, 0);
    AliveConcat(EntriesOf(v, c, 0), Stretch(v, c, 1, k));
    TwoFirst(EntriesOf(v, c, 0));
    Lengths(Alive(EntriesOf(v, c, 0)) + Alive(Stretch(v, c, 1, k)), Alive(EntriesOf(v, c, k)), Alive(Stretch(v, c, k + 1, 12)));
  }

  lemma PopulatedAt(v: Volume, c: nat, k: nat)
    requires Populated(v, c) && 1 <= k < 12 && c in v.nodes && |v.nodes[c].sectors| == 13 && v.nodes[c].sectors[k] != 0
    ensures Alive(EntriesOf(v, c, k)) != []
  {
    hide Alive, EntriesOf;
  }

  lemma Lengths(a: seq<Entry>, b: seq<Entry>, c: seq<Entry>)
    requires |a| >= 2 && b != []
    ensures |a + b + c| > 2
  {}

  /** Where search_file finds c: in its parent, as "." in itself, or as ".." in a child. */
  predicate FoundIn(f: Fs, d: nat, c: nat) {
    c in f.tree && d in f.tree && (f.tree[c].parent == d || (f.tree[c].isDir && (d == c || (d != 0 && f.tree[d].parent == c))))
  }

  /** A directory that was left through ".." is not empty. */
  lemma FoundBelow(f: Fs, d: nat, c: nat)
    requires FsInv(f) && c in f.tree && c != 0 && FoundIn(f, d, c) && (f.tree[c].isDir ==> OnlyDots(f.v, c))
    ensures f.tree[c].parent == d || (d == c && f.tree[c].isDir)
  {
    hide FsInv, OnlyDots;
    if f.tree[c].isDir && d != 0 {
      NoChildren(f, c, d);
    }
  }

  /** sys_rmdir of c, found in d, within dir_remove's ASSERT that only the first block is there. The
      test is on the size alone, so a regular file of 48 bytes goes too. When the path ends in ".", d is c
      itself and no entry is removed: exactly then the tree is broken. */
  method RemoveDir(p: Partition, ghost f: Fs, d: nat, c: nat) returns (ok: bool, ghost g: Fs)
    requires p.Valid() && f.v == p.View() && FsInv(f) && c != 0 && FoundIn(f, d, c)
    requires c in p.nodes
    modifies p
    ensures p.Valid() && g.v == p.View() && ok == (old(p.nodes)[c].size == 2 * ENTRY) && p.stopped == old(p.stopped)
    ensures !ok ==> g == f
    ensures ok && d != c ==> exists e, t :: Removes(f, d, c, e, t, g)
    ensures ok && d == c ==> g.tree == f.tree - {c} && Released(f.v, g.v, c)
    ensures FsInv(g) <==> !ok || d != c
  {
    hide Inv, FsInv, Removes, Step, OnlyDots, DirOk, Released, Listing, Wanted, Synced, EntryRemoved;
    SmallInode(f, c);
    if p.nodes[c].size != 2 * ENTRY {
      return false, f;
    }
    ok := true;
    assert forall k :: 1 <= k < 13 ==> p.nodes[c].sectors[k] == 0;
    FoundBelow(f, d, c);
    if d != c {
      ghost var e, t;
      e, t, g := RemoveChild(p, f, d, c);
    } else {
      FsFacts(f);
      FsPlace(f, c);
      ShapeFacts(f, c);
      RootBlock(f);
      var e := DeleteDirEntry(p, d, c);
      SelfIsNotFound(f, c);
      InodeRelease(p, c);
      g := Fs(p.View(), f.tree - {c});
      Dangles(f, c, g);
    }
  }

  lemma SelfIsNotFound(f: Fs, c: nat)
    requires FsInv(f) && c in f.tree && f.tree[c].isDir
    ensures forall x :: x in Listing(f.v, c) ==> !Wanted(x, c)
  {
    hide *;
    forall x | x in Listing(f.v, c)
      ensures !Wanted(x, c)
    {
      NotItsOwnChild(f, c, x);
    }
  }

  /** The parent's entry still names the released inode. */
  lemma Dangles(f: Fs, c: nat, g: Fs)
    requires FsInv(f) && c in f.tree && c != 0 && Released(f.v, g.v, c) && g.tree == f.tree - {c}
    ensures !FsInv(g)
  {
    hide *;
    var d := f.tree[c].parent;
    ChildIsWanted(f, d, c);
    var x := Wanting(f.v, d, c);
    ReleasedFacts(f.v, g.v, c);
    FsPlace(f, d);
    PlaceShape(f, d);
    SameShape(f.v, g.v, d, f.tree[d]);
    if FsInv(g) {
      FsEntry(g, d, x);
      EntryFacts(g, d, x);
    }
  }

  lemma Wanting(v: Volume, d: nat, c: nat) returns (x: Entry)
    requires exists x :: x in Listing(v, d) && Wanted(x, c)
    ensures x in Listing(v, d) && !IsDot(x) && x.iNo == c
  {
    x :| x in Listing(v, d) && Wanted(x, c);
  }
}
