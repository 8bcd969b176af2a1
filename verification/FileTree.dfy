/**
  The whole file system as a tree: which inodes are directories, where each one hangs, and how the
  operations of fs/fs.c change it. Every inode number stays below 256, and files and directories stay
  within their direct blocks.
 */
module FileTree {
  import opened Outcomes
  import opened Bitmap
  import opened Bytes
  import opened Volume
  import opened Directory
  import opened Directories
  import FileData

  /** Where an inode hangs in the tree. The root is its own parent. */
  datatype Place = Place(isDir: bool, parent: nat, depth: nat)

  datatype Fs = Fs(v: Volume, tree: map<nat, Place>)

  // ---------- The invariant ----------

  /** The inode number in "..". */
  ghost function UpOf(v: Volume, i: nat): nat {
    if |Listing(v, i)| >= 2 then Listing(v, i)[1].iNo else 0
  }

  /** The inode of a directory or a file is as its routines need it. */
  ghost predicate Shape(v: Volume, i: nat, p: Place) {
    if p.isDir then DirOk(v, i) && Populated(v, i) && UpOf(v, i) == p.parent else FileData.FileOk(v, i)
  }

  const SLASH: byte := 47

  /** Names are path components, so they have no slash. */
  predicate EntryFor(e: Entry, i: nat, isDir: bool) {
    !IsDot(e) && SLASH !in e.name && e.iNo == i && (e.ftype == DIRECTORY <==> isDir)
  }

  ghost predicate Named(v: Volume, d: nat, i: nat, isDir: bool) {
    exists e :: e in Listing(v, d) && EntryFor(e, i, isDir)
  }

  /** The root is where the format puts it; every other inode has an entry in its parent. */
  ghost predicate Anchored(f: Fs, i: nat)
    requires i in f.tree
  {
    if i == 0 then f.tree[0] == Place(true, 0, 0) && FirstSector(f.v, 0) == f.v.dataStart
    else
      var q := f.tree[i].parent;
      q in f.tree && f.tree[q].isDir && f.tree[i].depth == f.tree[q].depth + 1 && Named(f.v, q, i, f.tree[i].isDir)
  }

  ghost predicate PlaceOk(f: Fs, i: nat) {
    i in f.tree ==> i < 256 && Shape(f.v, i, f.tree[i]) && Anchored(f, i)
  }

  /** An entry of a directory, dots aside, names a child of the directory. */
  ghost predicate EntryOk(f: Fs, d: nat, e: Entry) {
    d in f.tree && f.tree[d].isDir && e in Listing(f.v, d) && !IsDot(e) ==>
      e.iNo != 0 && e.iNo in f.tree && f.tree[e.iNo].parent == d && EntryFor(e, e.iNo, f.tree[e.iNo].isDir)
  }

  ghost predicate FsInv(f: Fs) {
    && Inv(f.v) && Synced(f.v) && 0 in f.tree && f.tree.Keys == f.v.nodes.Keys
    && (forall i {:trigger PlaceOk(f, i)} :: PlaceOk(f, i))
    && (forall d, e {:trigger EntryOk(f, d, e)} :: EntryOk(f, d, e))
  }

  // ---------- What follows from it ----------

  /** No block belongs to two inodes, or twice to one, and every block of an inode is marked in the
      bitmap, in memory and on the disk. */
  lemma NoBlockTwice(f: Fs, i: nat, k: nat, j: nat, m: nat)
    requires FsInv(f) && i in f.tree && j in f.tree && k < 13 && m < 13
    ensures i in f.v.nodes && j in f.v.nodes && |f.v.nodes[i].sectors| == 13 && |f.v.nodes[j].sectors| == 13
    ensures f.v.nodes[i].sectors[k] != 0 && f.v.nodes[i].sectors[k] == f.v.nodes[j].sectors[m] ==> i == j && k == m
    ensures f.v.nodes[i].sectors[k] != 0 ==>
              var x := f.v.nodes[i].sectors[k] - f.v.dataStart; 0 <= x < |f.v.bits| == |f.v.diskBits| && f.v.bits[x] && f.v.diskBits[x]
  {
    assert NodeOk(f.v, i) && NodeOk(f.v, j) && SlotOk(f.v, i, k);
    hide FsInv;
    if f.v.nodes[i].sectors[k] != 0 && f.v.nodes[i].sectors[k] == f.v.nodes[j].sectors[m] {
      BlocksAreApart(f.v, i, k, j, m);
    }
  }

  /** Each inode other than the root is named once in the whole tree. */
  lemma NamedOnce(f: Fs, d: nat, a: nat, c: nat, b: nat)
    requires FsInv(f) && d in f.tree && f.tree[d].isDir && c in f.tree && f.tree[c].isDir
    requires a < |Listing(f.v, d)| && b < |Listing(f.v, c)| && !IsDot(Listing(f.v, d)[a]) && !IsDot(Listing(f.v, c)[b])
    requires Listing(f.v, d)[a].iNo == Listing(f.v, c)[b].iNo
    ensures d == c && a == b
  {
    var x, y := Listing(f.v, d)[a], Listing(f.v, c)[b];
    assert EntryOk(f, d, x) && EntryOk(f, c, y) && PlaceOk(f, d);
    hide FsInv, EntryOk, PlaceOk, Listing;
    assert d == c by { EntryFacts(f, d, x); EntryFacts(f, c, y); }
    assert NumbersDistinct(Listing(f.v, d)) by { ShapeFacts(f, d); DirFacts(f.v, d); }
  }

  lemma EntryFacts(f: Fs, d: nat, e: Entry)
    requires EntryOk(f, d, e) && d in f.tree && f.tree[d].isDir && e in Listing(f.v, d) && !IsDot(e)
    ensures e.iNo != 0 && e.iNo in f.tree && f.tree[e.iNo].parent == d && EntryFor(e, e.iNo, f.tree[e.iNo].isDir)
  {}

  lemma ShapeFacts(f: Fs, i: nat)
    requires PlaceOk(f, i) && i in f.tree
    ensures i < 256 && Anchored(f, i)
    ensures f.tree[i].isDir ==> DirOk(f.v, i) && Populated(f.v, i) && UpOf(f.v, i) == f.tree[i].parent
    ensures !f.tree[i].isDir ==> FileData.FileOk(f.v, i)
  {}

  lemma AnchorFacts(f: Fs, i: nat)
    requires i in f.tree && Anchored(f, i)
    ensures i == 0 ==> f.tree[0] == Place(true, 0, 0) && FirstSector(f.v, 0) == f.v.dataStart
    ensures i != 0 ==>
              var q := f.tree[i].parent;
              q in f.tree && f.tree[q].isDir && f.tree[i].depth == f.tree[q].depth + 1 && Named(f.v, q, i, f.tree[i].isDir)
  {}

  lemma FsFacts(f: Fs)
    requires FsInv(f)
    ensures Inv(f.v) && Synced(f.v) && 0 in f.tree && f.tree.Keys == f.v.nodes.Keys
    ensures f.v.diskBits == f.v.bits && f.v.diskIBits == f.v.iBits && f.v.table == f.v.nodes
  {}

  lemma FsPlace(f: Fs, i: nat)
    requires FsInv(f)
    ensures PlaceOk(f, i)
  {}

  lemma FsEntry(f: Fs, d: nat, e: Entry)
    requires FsInv(f)
    ensures EntryOk(f, d, e)
  {}

  /** The directory's own entry and its parent's are there, so an entry for a free inode is new. */
  lemma FreeInodeIsNew(f: Fs, d: nat, i: nat)
    requires FsInv(f) && d in f.tree && f.tree[d].isDir && i !in f.tree
    ensures NewNumber(Listing(f.v, d), i)
  {
    hide FsInv, EntryOk, Listing;
    forall e | e in Listing(f.v, d) && !IsDot(e)
      ensures e.iNo != i
    {
      FsEntry(f, d, e);
      EntryFacts(f, d, e);
    }
  }

  // ---------- An inode that has not changed ----------

  lemma SameShape(v: Volume, r: Volume, j: nat, p: Place)
    requires SameNode(v, r, j) && Shape(v, j, p)
    ensures Shape(r, j, p)
    ensures p.isDir ==> Listing(r, j) == Listing(v, j)
  {
    hide SameNode, DirOk, Listing, Populated, FileData.FileOk, FileData.Contents;
    if p.isDir {
      SameNodeSameDir(v, r, j);
      SamePopulated(v, r, j);
    } else {
      FileData.SameNodeSameFile(v, r, j);
    }
  }

  lemma SameFirst(v: Volume, r: Volume, j: nat)
    requires SameNode(v, r, j)
    ensures FirstSector(r, j) == FirstSector(v, j) && (j in v.nodes <==> j in r.nodes)
  {}

  // ---------- file_write ----------

  /** The data goes after the last byte of file i, and nothing else changes. */
  ghost predicate Writes(f: Fs, i: nat, data: seq<byte>, g: Fs) {
    && i in f.tree && !f.tree[i].isDir && g.tree == f.tree
    && i in f.v.nodes && i in g.v.nodes && FileData.Appended(f.v, g.v, i, data)
  }

  lemma WritesFacts(f: Fs, i: nat, data: seq<byte>, g: Fs)
    requires Writes(f, i, data, g)
    ensures i in f.tree && !f.tree[i].isDir && g.tree == f.tree && Inv(g.v) && Synced(g.v) && FileData.FileOk(g.v, i)
    ensures g.v.nodes.Keys == f.v.nodes.Keys && g.v.dataStart == f.v.dataStart
    ensures forall j {:trigger SameNode(f.v, g.v, j)} :: j != i ==> SameNode(f.v, g.v, j)
  {
    hide SameNode, FileData.FileOk, FileData.Contents;
    forall j: nat | j != i
      ensures SameNode(f.v, g.v, j)
    {
      assert SameElsewhere(f.v, g.v, i, j);
    }
  }

  lemma WritesKeepsInv(f: Fs, i: nat, data: seq<byte>, g: Fs)
    requires FsInv(f) && Writes(f, i, data, g)
    ensures FsInv(g)
  {
    FsFacts(f);
    WritesFacts(f, i, data, g);
    hide Inv, Synced, Shape, Anchored, EntryOk, PlaceOk, Writes, SameNode;
    hide FileData.FileOk;
    forall j: nat
      ensures PlaceOk(g, j)
    {
      if j in f.tree {
        FsPlace(f, j);
        FileStaysPlaced(f, i, g, j);
      } else {
        NoPlace(g, j);
      }
    }
    forall d: nat, e: Entry
      ensures EntryOk(g, d, e)
    {
      FsEntry(f, d, e);
      FsPlace(f, d);
      if d in f.tree && f.tree[d].isDir {
        SameEntries(f, g, d, e);
      } else {
        NoEntries(g, d, e);
      }
    }
  }

  lemma NoPlace(g: Fs, j: nat)
    requires j !in g.tree
    ensures PlaceOk(g, j)
  {}

  lemma NoEntries(g: Fs, d: nat, e: Entry)
    requires !(d in g.tree && g.tree[d].isDir && e in Listing(g.v, d) && !IsDot(e))
    ensures EntryOk(g, d, e)
  {}

  /** An entry that was there before, for an inode that has not moved. */
  lemma EntrySurvives(f: Fs, g: Fs, d: nat, e: Entry)
    requires EntryOk(f, d, e) && d in f.tree && d in g.tree && g.tree[d] == f.tree[d] && e in Listing(f.v, d)
    requires !IsDot(e) && f.tree[d].isDir && e.iNo in f.tree ==> e.iNo in g.tree && g.tree[e.iNo] == f.tree[e.iNo]
    ensures EntryOk(g, d, e)
  {
    hide Listing;
  }

  /** The same, in a directory that has not changed. */
  lemma SameEntries(f: Fs, g: Fs, d: nat, e: Entry)
    requires d in f.tree && f.tree[d].isDir && PlaceOk(f, d) && SameNode(f.v, g.v, d) && EntryOk(f, d, e)
    requires d in g.tree && g.tree[d] == f.tree[d]
    requires !IsDot(e) && e.iNo in f.tree && f.tree[e.iNo].parent == d ==> e.iNo in g.tree && g.tree[e.iNo] == f.tree[e.iNo]
    ensures EntryOk(g, d, e)
  {
    hide SameNode, DirOk, Listing, Populated;
    SameShape(f.v, g.v, d, f.tree[d]);
  }

  /** An inode keeps its place when its parent still names it. */
  lemma KeepsPlace(f: Fs, g: Fs, j: nat)
    requires j in f.tree && PlaceOk(f, j) && j in g.tree && g.tree[j] == f.tree[j] && Shape(g.v, j, g.tree[j])
    requires j == 0 ==> FirstSector(g.v, 0) == FirstSector(f.v, 0) && g.v.dataStart == f.v.dataStart
    requires j != 0 ==>
               var q := f.tree[j].parent;
               q in f.tree && q in g.tree && g.tree[q] == f.tree[q] && Named(g.v, q, j, f.tree[j].isDir)
    ensures PlaceOk(g, j)
  {
    hide Shape, Named, FirstSector;
  }

  lemma FileStaysPlaced(f: Fs, i: nat, g: Fs, j: nat)
    requires FsInv(f) && j in f.tree && g.tree == f.tree && i in f.tree && !f.tree[i].isDir && FileData.FileOk(g.v, i)
    requires forall x {:trigger SameNode(f.v, g.v, x)} :: x != i ==> SameNode(f.v, g.v, x)
    requires g.v.dataStart == f.v.dataStart
    ensures PlaceOk(g, j)
  {
    hide *;
    FsPlace(f, j);
    ShapeFacts(f, j);
    AnchorFacts(f, j);
    FileShape(g.v, i, f.tree[i]);
    if j != i {
      SameShape(f.v, g.v, j, f.tree[j]) by { PlaceShape(f, j); }
      SameFirst(f.v, g.v, j);
    }
    if j != 0 {
      FsPlace(f, f.tree[j].parent);
      SameNamed(f, g, f.tree[j].parent, j, f.tree[j].isDir);
    }
    assert f.tree[0].isDir by { FsFacts(f); FsPlace(f, 0); ShapeFacts(f, 0); AnchorFacts(f, 0); }
    KeepsPlace(f, g, j);
  }

  lemma PlaceShape(f: Fs, j: nat)
    requires j in f.tree && PlaceOk(f, j)
    ensures Shape(f.v, j, f.tree[j])
  {}

  lemma FileShape(v: Volume, i: nat, p: Place)
    requires !p.isDir && FileData.FileOk(v, i)
    ensures Shape(v, i, p)
  {}

  lemma SameNamed(f: Fs, g: Fs, q: nat, j: nat, isDir: bool)
    requires q in f.tree && f.tree[q].isDir && PlaceOk(f, q) && SameNode(f.v, g.v, q) && Named(f.v, q, j, isDir)
    ensures Named(g.v, q, j, isDir)
  {
    hide SameNode, DirOk, Listing, Populated;
    SameShape(f.v, g.v, q, f.tree[q]);
  }

  // ---------- file_create and sys_mkdir ----------

  /** Inode i is new, and directory d has an entry e more; the rest is the same, and memory and disk
      agree. */
  ghost predicate Grown(v: Volume, r: Volume, d: nat, i: nat, e: Entry) {
    && d != i && i !in v.nodes && d in v.nodes && Inv(r) && Synced(r) && r.dataStart == v.dataStart && |r.bits| == |v.bits|
    && r.nodes.Keys == v.nodes.Keys + {i} && r.leaked == v.leaked && i < |v.iBits| && r.iBits == v.iBits[i := true]
    && (forall j {:trigger SameNode(v, r, j)} :: j != d && j != i ==> SameNode(v, r, j))
    && DirOk(r, d) && (Populated(v, d) ==> Populated(r, d)) && FirstSector(r, d) == FirstSector(v, d)
    && exists a, b :: Inserts(v, r, d, a, e, b)
  }

  function DotEntry(i: nat): Entry {
    Entry(DOT, i, DIRECTORY)
  }

  function DotDotEntry(d: nat): Entry {
    Entry(DOTDOT, d, DIRECTORY)
  }

  /** A new file is empty; a new directory has the two dots. */
  ghost predicate NewShape(v: Volume, e: Entry, d: nat) {
    && e.iNo in v.nodes
    && if e.ftype == DIRECTORY then DirOk(v, e.iNo) && Populated(v, e.iNo) && Listing(v, e.iNo) == [DotEntry(e.iNo), DotDotEntry(d)]
       else v.nodes[e.iNo] == EmptyNode()
  }

  /** What file_create and sys_mkdir do when they succeed: e names the new inode in d. */
  ghost predicate Creates(f: Fs, d: nat, e: Entry, g: Fs) {
    && e.iNo !in f.tree && e.iNo < 256 && d in f.tree && f.tree[d].isDir && !IsDot(e) && SLASH !in e.name
    && g.tree == f.tree[e.iNo := Place(e.ftype == DIRECTORY, d, f.tree[d].depth + 1)]
    && Grown(f.v, g.v, d, e.iNo, e) && NewShape(g.v, e, d)
  }

  lemma GrownFacts(v: Volume, r: Volume, d: nat, i: nat, e: Entry)
    requires Grown(v, r, d, i, e)
    ensures d != i && i !in v.nodes && d in v.nodes && Inv(r) && Synced(r) && r.dataStart == v.dataStart
    ensures r.nodes.Keys == v.nodes.Keys + {i} && DirOk(r, d) && (Populated(v, d) ==> Populated(r, d)) && FirstSector(r, d) == FirstSector(v, d)
    ensures forall j {:trigger SameNode(v, r, j)} :: j != d && j != i ==> SameNode(v, r, j)
  {
    hide SameNode;
  }

  lemma GrownList(v: Volume, r: Volume, d: nat, i: nat, e: Entry) returns (a: seq<Entry>, b: seq<Entry>)
    requires Grown(v, r, d, i, e)
    ensures Listing(v, d) == a + b && Listing(r, d) == a + [e] + b
  {
    hide Listing, SameNode;
    a, b :| Inserts(v, r, d, a, e, b);
  }

  lemma CreatesFacts(f: Fs, d: nat, e: Entry, g: Fs)
    requires Creates(f, d, e, g)
    ensures e.iNo !in f.tree && e.iNo < 256 && d in f.tree && f.tree[d].isDir && !IsDot(e) && SLASH !in e.name && d != e.iNo
    ensures g.tree == f.tree[e.iNo := Place(e.ftype == DIRECTORY, d, f.tree[d].depth + 1)]
    ensures Grown(f.v, g.v, d, e.iNo, e) && NewShape(g.v, e, d)
  {}

  /** The two dots are first in both lists, so ".." is the same entry. */
  lemma UpStays(v: Volume, r: Volume, d: nat, a: seq<Entry>, e: Entry, b: seq<Entry>)
    requires DirOk(v, d) && DirOk(r, d) && Listing(v, d) == a + b && Listing(r, d) == a + [e] + b
    ensures UpOf(r, d) == UpOf(v, d)
  {
    ListingStarts(v, d);
    ListingStarts(r, d);
    DirFacts(r, d);
    hide Listing, DirOk, NamesDistinct;
    var x := Listing(v, d)[1];
    assert x in a + [e] + b;
    SameName(Listing(r, d), x);
  }

  lemma SameName(s: seq<Entry>, x: Entry)
    requires NamesDistinct(s) && x in s && |s| >= 2 && s[1].name == x.name
    ensures s[1] == x
  {}

  lemma InMore(a: seq<Entry>, e: Entry, b: seq<Entry>, x: Entry)
    ensures x in a + [e] + b <==> x == e || x in a + b
  {}

  lemma DirStays(v: Volume, r: Volume, d: nat, p: Place, a: seq<Entry>, e: Entry, b: seq<Entry>)
    requires p.isDir && Shape(v, d, p) && DirOk(r, d) && (Populated(v, d) ==> Populated(r, d))
    requires (Listing(v, d) == a + b && Listing(r, d) == a + [e] + b) || (Listing(r, d) == a + b && Listing(v, d) == a + [e] + b)
    ensures Shape(r, d, p)
  {
    hide DirOk, Listing, Populated, UpOf;
    if Listing(v, d) == a + b && Listing(r, d) == a + [e] + b {
      UpStays(v, r, d, a, e, b);
    } else {
      UpStays(r, v, d, a, e, b);
    }
  }

  lemma NamedGrows(v: Volume, r: Volume, d: nat, a: seq<Entry>, e: Entry, b: seq<Entry>, j: nat, isDir: bool)
    requires Listing(v, d) == a + b && Listing(r, d) == a + [e] + b && Named(v, d, j, isDir)
    ensures Named(r, d, j, isDir)
  {
    hide Listing;
    var x :| x in Listing(v, d) && EntryFor(x, j, isDir);
    InMore(a, e, b, x);
  }

  lemma NamedByNew(v: Volume, r: Volume, d: nat, a: seq<Entry>, e: Entry, b: seq<Entry>)
    requires Listing(r, d) == a + [e] + b && !IsDot(e) && SLASH !in e.name
    ensures Named(r, d, e.iNo, e.ftype == DIRECTORY)
  {
    hide Listing;
    InMore(a, e, b, e);
  }

  /** The new inode has its place. */
  lemma NewPlace(f: Fs, d: nat, e: Entry, g: Fs, a: seq<Entry>, b: seq<Entry>)
    requires FsInv(f) && Creates(f, d, e, g) && Listing(g.v, d) == a + [e] + b
    ensures PlaceOk(g, e.iNo)
  {
    hide *;
    FsFacts(f);
    CreatesFacts(f, d, e, g);
    NamedByNew(f.v, g.v, d, a, e, b);
    NewIsShaped(g.v, e, d, f.tree[d].depth + 1);
    NewIsPlaced(f, d, e, g);
  }

  lemma NewIsPlaced(f: Fs, d: nat, e: Entry, g: Fs)
    requires e.iNo != 0 && e.iNo != d && e.iNo < 256 && d in f.tree && f.tree[d].isDir
    requires g.tree == f.tree[e.iNo := Place(e.ftype == DIRECTORY, d, f.tree[d].depth + 1)]
    requires Named(g.v, d, e.iNo, e.ftype == DIRECTORY) && Shape(g.v, e.iNo, Place(e.ftype == DIRECTORY, d, f.tree[d].depth + 1))
    ensures PlaceOk(g, e.iNo)
  {
    hide Named, Shape;
  }

  lemma NewIsShaped(v: Volume, e: Entry, d: nat, depth: nat)
    requires NewShape(v, e, d)
    ensures Shape(v, e.iNo, Place(e.ftype == DIRECTORY, d, depth))
  {
    hide Listing, DirOk, Populated;
  }

  /** Every other inode keeps its place. */
  lemma OldPlace(f: Fs, d: nat, e: Entry, g: Fs, a: seq<Entry>, b: seq<Entry>, j: nat)
    requires FsInv(f) && Creates(f, d, e, g) && Listing(f.v, d) == a + b && Listing(g.v, d) == a + [e] + b && j in f.tree
    ensures PlaceOk(g, j)
  {
    hide *;
    FsFacts(f);
    CreatesFacts(f, d, e, g);
    GrownFacts(f.v, g.v, d, e.iNo, e);
    FsPlace(f, j);
    PlaceShape(f, j);
    ShapeFacts(f, j);
    AnchorFacts(f, j);
    if j == d {
      DirStays(f.v, g.v, d, f.tree[d], a, e, b);
    } else {
      SameShape(f.v, g.v, j, f.tree[j]);
      SameFirst(f.v, g.v, j);
    }
    if j != 0 {
      var q := f.tree[j].parent;
      FsPlace(f, q);
      if q == d {
        NamedGrows(f.v, g.v, d, a, e, b, j, f.tree[j].isDir);
      } else {
        SameNamed(f, g, q, j, f.tree[j].isDir);
      }
    }
    KeepsPlace(f, g, j);
  }

  lemma NewEntry(f: Fs, d: nat, e: Entry, g: Fs, x: nat, y: Entry)
    requires FsInv(f) && Creates(f, d, e, g)
    ensures EntryOk(g, x, y)
  {
    hide *;
    FsFacts(f);
    CreatesFacts(f, d, e, g);
    GrownFacts(f.v, g.v, d, e.iNo, e);
    FsPlace(f, x);
    FsEntry(f, x, y);
    if x == e.iNo {
      NewHasDotsOnly(f, d, e, g, y);
    } else if !(x in f.tree && f.tree[x].isDir) {
      NoEntries(g, x, y);
    } else if x != d {
      SameEntries(f, g, x, y);
    } else {
      var a, b := GrownList(f.v, g.v, d, e.iNo, e);
      InMore(a, e, b, y);
      if y == e {
        NewIsChild(f, d, e, g);
      } else if y in a + b {
        EntrySurvives(f, g, d, y);
      } else {
        NoEntries(g, d, y);
      }
    }
  }

  lemma NewHasDotsOnly(f: Fs, d: nat, e: Entry, g: Fs, y: Entry)
    requires d in f.tree && NewShape(g.v, e, d) && g.tree == f.tree[e.iNo := Place(e.ftype == DIRECTORY, d, f.tree[d].depth + 1)]
    ensures EntryOk(g, e.iNo, y)
  {
    hide Listing, DirOk, Populated;
  }

  lemma NewIsChild(f: Fs, d: nat, e: Entry, g: Fs)
    requires d in f.tree && e.iNo != 0 && g.tree == f.tree[e.iNo := Place(e.ftype == DIRECTORY, d, f.tree[d].depth + 1)]
    requires !IsDot(e) && SLASH !in e.name
    ensures EntryOk(g, d, e)
  {}

  lemma CreatesKeepsInv(f: Fs, d: nat, e: Entry, g: Fs)
    requires FsInv(f) && Creates(f, d, e, g)
    ensures FsInv(g)
  {
    hide *;
    FsFacts(f);
    CreatesFacts(f, d, e, g);
    GrownFacts(f.v, g.v, d, e.iNo, e);
    var a, b := GrownList(f.v, g.v, d, e.iNo, e);
    forall j: nat
      ensures PlaceOk(g, j)
    {
      if j == e.iNo {
        NewPlace(f, d, e, g, a, b);
      } else if j in f.tree {
        OldPlace(f, d, e, g, a, b, j);
      } else {
        NoPlace(g, j);
      }
    }
    forall x: nat, y: Entry
      ensures EntryOk(g, x, y)
    {
      NewEntry(f, d, e, g, x, y);
    }
    FsFromParts(g);
  }

  lemma FsFromParts(g: Fs)
    requires Inv(g.v) && Synced(g.v) && 0 in g.tree && g.tree.Keys == g.v.nodes.Keys
    requires forall i {:trigger PlaceOk(g, i)} :: PlaceOk(g, i)
    requires forall d, e {:trigger EntryOk(g, d, e)} :: EntryOk(g, d, e)
    ensures FsInv(g)
  {}

  // ---------- sys_unlink and sys_rmdir ----------

  predicate BitReleased(t: Volume, r: Volume, c: nat, x: nat) {
    x < |t.bits| && x < |r.bits| ==> (r.bits[x] <==> t.bits[x] && !(x in t.owner && t.owner[x].inode == c))
  }

  /** What inode_release promises: the inode is gone, and exactly its blocks and its inode bit are free
      again, in memory and on the disk. */
  ghost predicate Released(t: Volume, r: Volume, c: nat) {
    && c in t.nodes && Inv(r) && r.dataStart == t.dataStart && r.blocks == t.blocks && r.leaked == t.leaked
    && |r.bits| == |t.bits| && (forall x {:trigger BitReleased(t, r, c, x)} :: BitReleased(t, r, c, x)) && r.diskBits == r.bits
    && c < |t.iBits| && r.iBits == t.iBits[c := false] && r.diskIBits == r.iBits
    && r.nodes == t.nodes - {c} && r.table == t.table - {c}
    && (forall j {:trigger SameNode(t, r, j)} :: j != c ==> SameNode(t, r, j))
  }

  /** Only dots are left in the directory. */
  ghost predicate OnlyDots(v: Volume, c: nat) {
    forall e :: e in Listing(v, c) ==> IsDot(e)
  }

  /** What sys_unlink and sys_rmdir do when they succeed: the entry of c leaves d, and then c itself is
      released. */
  ghost predicate Removes(f: Fs, d: nat, c: nat, e: Entry, t: Volume, g: Fs) {
    && d in f.tree && f.tree[d].isDir && c in f.tree && (f.tree[c].isDir ==> OnlyDots(f.v, c))
    && Wanted(e, c) && e in Listing(f.v, d) && g.tree == f.tree - {c}
    && EntryRemoved(f.v, t, d, e) && Released(t, g.v, c)
  }

  lemma RemovesFacts(f: Fs, d: nat, c: nat, e: Entry, t: Volume, g: Fs)
    requires Removes(f, d, c, e, t, g)
    ensures d in f.tree && f.tree[d].isDir && c in f.tree && (f.tree[c].isDir ==> OnlyDots(f.v, c))
    ensures Live(e) && !IsDot(e) && e.iNo == c && e in Listing(f.v, d) && g.tree == f.tree - {c}
    ensures EntryRemoved(f.v, t, d, e) && Released(t, g.v, c)
  {}

  lemma RemovedFacts(v: Volume, t: Volume, d: nat, e: Entry)
    requires EntryRemoved(v, t, d, e)
    ensures DirOk(t, d) && (Populated(v, d) ==> Populated(t, d)) && FirstSector(t, d) == FirstSector(v, d)
    ensures t.dataStart == v.dataStart && t.nodes.Keys == v.nodes.Keys && (Synced(v) ==> Synced(t))
    ensures forall j {:trigger SameNode(v, t, j)} :: j != d ==> SameNode(v, t, j)
  {
    hide DirOk, Populated, Listing, SameNode, Inv;
    if Synced(v) {
      SyncedAgain(v, t, d);
    }
    forall j: nat | j != d
      ensures SameNode(v, t, j)
    {
      assert SameElsewhere(v, t, d, j);
    }
  }

  lemma ReleasedFacts(t: Volume, r: Volume, c: nat)
    requires Released(t, r, c)
    ensures c in t.nodes && r.nodes.Keys == t.nodes.Keys - {c} && Inv(r) && r.dataStart == t.dataStart && (Synced(t) ==> Synced(r))
    ensures forall j {:trigger SameNode(t, r, j)} :: j != c ==> SameNode(t, r, j)
  {
    hide SameNode, Inv;
  }

  /** Directory d has lost its entry for c, and c is gone; the rest is the same. */
  ghost predicate Shrunk(v: Volume, r: Volume, d: nat, c: nat, e: Entry) {
    && Inv(r) && (Synced(v) ==> Synced(r)) && r.dataStart == v.dataStart && r.nodes.Keys == v.nodes.Keys - {c}
    && (forall j {:trigger SameNode(v, r, j)} :: j != d && j != c ==> SameNode(v, r, j))
    && DirOk(r, d) && (Populated(v, d) ==> Populated(r, d)) && FirstSector(r, d) == FirstSector(v, d)
    && exists a, b :: Inserts(r, v, d, a, e, b)
  }

  lemma ShrunkFacts(v: Volume, r: Volume, d: nat, c: nat, e: Entry)
    requires Shrunk(v, r, d, c, e)
    ensures Inv(r) && (Synced(v) ==> Synced(r)) && r.dataStart == v.dataStart && r.nodes.Keys == v.nodes.Keys - {c}
    ensures DirOk(r, d) && (Populated(v, d) ==> Populated(r, d)) && FirstSector(r, d) == FirstSector(v, d)
    ensures forall j {:trigger SameNode(v, r, j)} :: j != d && j != c ==> SameNode(v, r, j)
  {
    hide SameNode;
  }

  lemma ShrunkList(v: Volume, r: Volume, d: nat, c: nat, e: Entry) returns (a: seq<Entry>, b: seq<Entry>)
    requires Shrunk(v, r, d, c, e)
    ensures Listing(r, d) == a + b && Listing(v, d) == a + [e] + b
  {
    hide Listing, SameNode;
    a, b :| Inserts(r, v, d, a, e, b);
  }

  lemma RemovedList(v: Volume, t: Volume, d: nat, e: Entry) returns (a: seq<Entry>, b: seq<Entry>)
    requires EntryRemoved(v, t, d, e)
    ensures Listing(t, d) == a + b && Listing(v, d) == a + [e] + b
  {
    hide Listing, Only, Inv, DirOk, Populated;
    a, b :| Inserts(t, v, d, a, e, b);
  }

  /** The two steps of a removal together. */
  lemma RemovesShrinks(f: Fs, d: nat, c: nat, e: Entry, t: Volume, g: Fs)
    requires Removes(f, d, c, e, t, g) && c != d
    ensures Shrunk(f.v, g.v, d, c, e)
  {
    hide *;
    RemovesFacts(f, d, c, e, t, g);
    RemovedFacts(f.v, t, d, e);
    ReleasedFacts(t, g.v, c);
    var a, b := RemovedList(f.v, t, d, e);
    assert SameNode(t, g.v, d);
    SameNodeSameDir(t, g.v, d);
    ShapeIsPopulated(t, g.v, d);
    SameFirst(t, g.v, d);
    forall j: nat | j != d && j != c
      ensures SameNode(f.v, g.v, j)
    {
      SameNodeTransitive(f.v, t, g.v, j);
    }
    ShrunkFromParts(f.v, g.v, d, c, a, e, b);
  }

  lemma ShapeIsPopulated(t: Volume, r: Volume, d: nat)
    requires SameNode(t, r, d) && DirOk(t, d)
    ensures Populated(t, d) ==> Populated(r, d)
  {
    hide SameNode, DirOk, Populated;
    if Populated(t, d) {
      SamePopulated(t, r, d);
    }
  }

  lemma ShrunkFromParts(v: Volume, r: Volume, d: nat, c: nat, a: seq<Entry>, e: Entry, b: seq<Entry>)
    requires Inv(r) && (Synced(v) ==> Synced(r)) && r.dataStart == v.dataStart && r.nodes.Keys == v.nodes.Keys - {c}
    requires DirOk(r, d) && (Populated(v, d) ==> Populated(r, d)) && FirstSector(r, d) == FirstSector(v, d)
    requires forall j {:trigger SameNode(v, r, j)} :: j != d && j != c ==> SameNode(v, r, j)
    requires Listing(r, d) == a + b && Listing(v, d) == a + [e] + b
    ensures Shrunk(v, r, d, c, e)
  {
    hide SameNode, Listing, Inv, DirOk, Populated;
    assert Inserts(r, v, d, a, e, b);
  }

  /** What a removal is about: a child of d with nothing below it. */
  lemma RemovesChild(f: Fs, d: nat, c: nat, e: Entry, t: Volume, g: Fs)
    requires FsInv(f) && Removes(f, d, c, e, t, g)
    ensures c != 0 && c != d && c in f.tree && f.tree[c].parent == d && Shrunk(f.v, g.v, d, c, e)
    ensures EntryFor(e, c, f.tree[c].isDir)
  {
    hide *;
    RemovesFacts(f, d, c, e, t, g);
    FsEntry(f, d, e);
    EntryFacts(f, d, e);
    FsPlace(f, c);
    ShapeFacts(f, c);
    AnchorFacts(f, c);
    RemovesShrinks(f, d, c, e, t, g);
  }

  /** Nothing hangs below an inode that is a file or has dots only. */
  lemma NoChildren(f: Fs, c: nat, j: nat)
    requires FsInv(f) && c in f.tree && (f.tree[c].isDir ==> OnlyDots(f.v, c)) && j in f.tree && j != 0
    ensures f.tree[j].parent != c
  {
    hide *;
    FsPlace(f, j);
    ShapeFacts(f, j);
    AnchorFacts(f, j);
    if f.tree[j].parent == c {
      NobodyIsNamed(f.v, c, j, f.tree[j].isDir);
    }
  }

  lemma NobodyIsNamed(v: Volume, c: nat, j: nat, isDir: bool)
    requires OnlyDots(v, c)
    ensures !Named(v, c, j, isDir)
  {
    hide Listing;
  }

  lemma NamedShrinks(v: Volume, r: Volume, d: nat, a: seq<Entry>, e: Entry, b: seq<Entry>, j: nat, isDir: bool)
    requires Listing(r, d) == a + b && Listing(v, d) == a + [e] + b && Named(v, d, j, isDir) && e.iNo != j
    ensures Named(r, d, j, isDir)
  {
    hide Listing;
    var x :| x in Listing(v, d) && EntryFor(x, j, isDir);
    InMore(a, e, b, x);
  }

  lemma PlaceAfterRemoval(f: Fs, d: nat, c: nat, e: Entry, t: Volume, g: Fs, a: seq<Entry>, b: seq<Entry>, j: nat)
    requires FsInv(f) && Removes(f, d, c, e, t, g) && j in f.tree && j != c
    requires Listing(g.v, d) == a + b && Listing(f.v, d) == a + [e] + b
    ensures PlaceOk(g, j)
  {
    hide *;
    RemovesChild(f, d, c, e, t, g);
    RemovesFacts(f, d, c, e, t, g);
    ShrunkFacts(f.v, g.v, d, c, e);
    FsPlace(f, j);
    PlaceShape(f, j);
    ShapeFacts(f, j);
    AnchorFacts(f, j);
    if j == d {
      DirStays(f.v, g.v, d, f.tree[d], a, e, b);
    } else {
      SameShape(f.v, g.v, j, f.tree[j]);
      SameFirst(f.v, g.v, j);
    }
    if j != 0 {
      var q := f.tree[j].parent;
      FsPlace(f, q);
      NoChildren(f, c, j);
      if q == d {
        NamedShrinks(f.v, g.v, d, a, e, b, j, f.tree[j].isDir);
      } else {
        SameNamed(f, g, q, j, f.tree[j].isDir);
      }
    }
    KeepsPlace(f, g, j);
  }

  /** An inode has one entry in a directory. */
  lemma NotTwice(a: seq<Entry>, e: Entry, b: seq<Entry>, y: Entry)
    requires NumbersDistinct(a + [e] + b) && !IsDot(e) && !IsDot(y) && y in a + b
    ensures y.iNo != e.iNo
  {
    var s := a + [e] + b;
    var k :| 0 <= k < |a + b| && (a + b)[k] == y;
    AroundAt(a, e, b, if k < |a| then k else k + 1);
  }

  lemma EntryAfterRemoval(f: Fs, d: nat, c: nat, e: Entry, t: Volume, g: Fs, x: nat, y: Entry)
    requires FsInv(f) && Removes(f, d, c, e, t, g)
    ensures EntryOk(g, x, y)
  {
    hide *;
    RemovesChild(f, d, c, e, t, g);
    RemovesFacts(f, d, c, e, t, g);
    ShrunkFacts(f.v, g.v, d, c, e);
    FsPlace(f, x);
    FsEntry(f, x, y);
    if !(x in f.tree && f.tree[x].isDir) || x == c {
      NoEntries(g, x, y);
    } else if x != d {
      SameEntries(f, g, x, y);
    } else {
      var a, b := ShrunkList(f.v, g.v, d, c, e);
      InMore(a, e, b, y);
      if y in a + b {
        if !IsDot(y) {
          ShapeFacts(f, d);
          DirFacts(f.v, d);
          NotTwice(a, e, b, y);
        }
        EntrySurvives(f, g, d, y);
      } else {
        NoEntries(g, d, y);
      }
    }
  }

  lemma RemovesKeepsInv(f: Fs, d: nat, c: nat, e: Entry, t: Volume, g: Fs)
    requires FsInv(f) && Removes(f, d, c, e, t, g)
    ensures FsInv(g)
  {
    hide *;
    FsFacts(f);
    RemovesChild(f, d, c, e, t, g);
    RemovesFacts(f, d, c, e, t, g);
    ShrunkFacts(f.v, g.v, d, c, e);
    var a, b := ShrunkList(f.v, g.v, d, c, e);
    forall j: nat
      ensures PlaceOk(g, j)
    {
      if j in f.tree && j != c {
        PlaceAfterRemoval(f, d, c, e, t, g, a, b, j);
      } else {
        NoPlace(g, j);
      }
    }
    forall x: nat, y: Entry
      ensures EntryOk(g, x, y)
    {
      EntryAfterRemoval(f, d, c, e, t, g, x, y);
    }
    FsFromParts(g);
  }

  // ---------- A failed sys_mkdir ----------

  /** When sys_mkdir has its block but finds none for the entry, the block is not given back. Only a kernel
      built without ASSERTs gets here: one built with them stops in bitmap_scan. */
  ghost predicate Leaks(f: Fs, x: nat, g: Fs) {
    && x < |f.v.bits| && !f.v.bits[x] && g.tree == f.tree && Inv(g.v) && Synced(g.v)
    && g.v.nodes == f.v.nodes && g.v.dataStart == f.v.dataStart && g.v.iBits == f.v.iBits
    && g.v.bits == f.v.bits[x := true] && g.v.leaked == f.v.leaked + {x} && g.v.owner == f.v.owner
    && forall j {:trigger SameNode(f.v, g.v, j)} :: SameNode(f.v, g.v, j)
  }

  lemma LeaksKeepsInv(f: Fs, x: nat, g: Fs)
    requires FsInv(f) && Leaks(f, x, g)
    ensures FsInv(g)
  {
    hide *;
    FsFacts(f);
    LeaksFacts(f, x, g);
    forall j: nat
      ensures PlaceOk(g, j)
    {
      if j in f.tree {
        StaysPlaced(f, g, j);
      } else {
        NoPlace(g, j);
      }
    }
    forall d: nat, y: Entry
      ensures EntryOk(g, d, y)
    {
      FsPlace(f, d);
      FsEntry(f, d, y);
      if d in f.tree && f.tree[d].isDir {
        SameEntries(f, g, d, y);
      } else {
        NoEntries(g, d, y);
      }
    }
    FsFromParts(g);
  }

  lemma LeaksFacts(f: Fs, x: nat, g: Fs)
    requires Leaks(f, x, g)
    ensures g.tree == f.tree && Inv(g.v) && Synced(g.v) && g.v.nodes == f.v.nodes && g.v.dataStart == f.v.dataStart
    ensures forall j {:trigger SameNode(f.v, g.v, j)} :: SameNode(f.v, g.v, j)
  {
    hide SameNode;
  }

  lemma StaysPlaced(f: Fs, g: Fs, j: nat)
    requires FsInv(f) && j in f.tree && g.tree == f.tree && g.v.dataStart == f.v.dataStart
    requires forall x {:trigger SameNode(f.v, g.v, x)} :: SameNode(f.v, g.v, x)
    ensures PlaceOk(g, j)
  {
    hide *;
    FsPlace(f, j);
    PlaceShape(f, j);
    AnchorFacts(f, j) by { ShapeFacts(f, j); }
    SameShape(f.v, g.v, j, f.tree[j]);
    SameFirst(f.v, g.v, j);
    if j != 0 {
      FsPlace(f, f.tree[j].parent);
      SameNamed(f, g, f.tree[j].parent, j, f.tree[j].isDir);
    }
    KeepsPlace(f, g, j);
  }

  // ---------- Bits that stay set ----------

  /** No call gives back a block that nobody owns, and the bitmap stays as long as it is. */
  ghost predicate StaysLost(f: Fs, g: Fs) {
    f.v.leaked <= g.v.leaked && |g.v.bits| == |f.v.bits| && g.v.dataStart == f.v.dataStart
  }

  lemma StepStaysLost(f: Fs, g: Fs)
    requires Step(f, g)
    ensures StaysLost(f, g)
  {
    hide Writes, Creates, Removes, Leaks;
    if i, data :| Writes(f, i, data, g) {
      WritesStaysLost(f, i, data, g);
    } else if d, e :| Creates(f, d, e, g) {
      CreatesStaysLost(f, d, e, g);
    } else if d, c, e, t :| Removes(f, d, c, e, t, g) {
      RemovesStaysLost(f, d, c, e, t, g);
    } else if x :| Leaks(f, x, g) {
      LeaksStaysLost(f, x, g);
    }
  }

  lemma WritesStaysLost(f: Fs, i: nat, data: seq<byte>, g: Fs)
    requires Writes(f, i, data, g)
    ensures StaysLost(f, g)
  {
    hide Inv, Synced, FileData.FileOk, FileData.Contents, SameElsewhere;
  }

  lemma CreatesStaysLost(f: Fs, d: nat, e: Entry, g: Fs)
    requires Creates(f, d, e, g)
    ensures StaysLost(f, g)
  {
    hide Inv, Synced, DirOk, Populated, FirstSector, SameNode, NewShape, Inserts;
  }

  lemma RemovesStaysLost(f: Fs, d: nat, c: nat, e: Entry, t: Volume, g: Fs)
    requires Removes(f, d, c, e, t, g)
    ensures StaysLost(f, g)
  {
    hide Inv, DirOk, Populated, FirstSector, SameNode, SameElsewhere, OnlyDots, BitReleased, Inserts, Listing;
  }

  lemma LeaksStaysLost(f: Fs, x: nat, g: Fs)
    requires Leaks(f, x, g)
    ensures StaysLost(f, g)
  {
    hide Inv, Synced, SameNode;
  }

  lemma {:induction false} RunStaysLost(s: seq<Fs>, k: nat)
    requires Run(s) && k < |s|
    ensures StaysLost(s[0], s[k])
  {
    hide Step;
    if k > 0 {
      RunStaysLost(s, k - 1);
      assert Step(s[k - 1], s[k - 1 + 1]);
      StepStaysLost(s[k - 1], s[k]);
    }
  }

  // ---------- Runs ----------

  /** One call: it writes, creates, removes, fails without a trace, or fails and loses a block. */
  ghost predicate Step(f: Fs, g: Fs) {
    || g == f
    || (exists i, data :: Writes(f, i, data, g))
    || (exists d, e :: Creates(f, d, e, g))
    || (exists d, c, e, t :: Removes(f, d, c, e, t, g))
    || (exists x :: Leaks(f, x, g))
  }

  lemma StepKeepsInv(f: Fs, g: Fs)
    requires FsInv(f) && Step(f, g)
    ensures FsInv(g)
  {
    hide FsInv, Writes, Creates, Removes, Leaks;
    if i, data :| Writes(f, i, data, g) {
      WritesKeepsInv(f, i, data, g);
    } else if d, e :| Creates(f, d, e, g) {
      CreatesKeepsInv(f, d, e, g);
    } else if d, c, e, t :| Removes(f, d, c, e, t, g) {
      RemovesKeepsInv(f, d, c, e, t, g);
    } else if x :| Leaks(f, x, g) {
      LeaksKeepsInv(f, x, g);
    }
  }

  ghost predicate Run(s: seq<Fs>) {
    forall k :: 0 <= k < |s| - 1 ==> Step(s[k], s[k + 1])
  }

  /** After any sequence of calls, failing ones included: no block has two owners, every owned block is
      marked, a remount finds the same bitmaps and inodes, and the tree is a tree. */
  lemma {:induction false} RunsKeepTheTree(s: seq<Fs>, k: nat)
    requires Run(s) && k < |s| && FsInv(s[0])
    ensures FsInv(s[k])
    ensures s[k].v.diskBits == s[k].v.bits && s[k].v.diskIBits == s[k].v.iBits && s[k].v.table == s[k].v.nodes
    ensures s[k].tree.Keys == s[k].v.nodes.Keys && 0 in s[k].tree && s[k].tree[0] == Place(true, 0, 0)
    ensures forall i :: i in s[k].tree && i != 0 ==>
              var q := s[k].tree[i].parent;
              q in s[k].tree && s[k].tree[q].isDir && s[k].tree[i].depth == s[k].tree[q].depth + 1
  {
    hide FsInv, Step;
    if k > 0 {
      RunsKeepTheTree(s, k - 1);
      assert Step(s[k - 1], s[k - 1 + 1]);
      StepKeepsInv(s[k - 1], s[k]);
    }
    FsFacts(s[k]);
    ParentsAreThere(s[k]);
  }

  lemma ParentsAreThere(f: Fs)
    requires FsInv(f)
    ensures 0 in f.tree && f.tree[0] == Place(true, 0, 0)
    ensures forall i :: i in f.tree && i != 0 ==>
              var q := f.tree[i].parent;
              q in f.tree && f.tree[q].isDir && f.tree[i].depth == f.tree[q].depth + 1
  {
    hide *;
    FsFacts(f);
    FsPlace(f, 0);
    ShapeFacts(f, 0);
    AnchorFacts(f, 0);
    forall i | i in f.tree && i != 0
      ensures var q := f.tree[i].parent;
              q in f.tree && f.tree[q].isDir && f.tree[i].depth == f.tree[q].depth + 1
    {
      FsPlace(f, i);
      ShapeFacts(f, i);
      AnchorFacts(f, i);
    }
  }
}
