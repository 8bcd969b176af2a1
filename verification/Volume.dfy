/**
  A mounted partition: its blocks, its two bitmaps in memory and on disk, and its inodes
  (fs/file.c:55-96, fs/inode.c:169-234). `owner` and `leaked` record what each block is for; they are
  bookkeeping for the proofs. Only direct blocks are used.
 */
module Volume {
  import opened Outcomes
  import opened Bitmap
  import opened Bytes

  const BLOCK := 512                 // BLOCK_SIZE
  const DIRECT := 12                 // i_sectors[0..11]; i_sectors[12] is the indirect table

  /** What an inode says: i_size and i_sectors. */
  datatype Node = Node(size: nat, sectors: seq<nat>)

  /** A block of inode `inode`, at position `slot` of its i_sectors. */
  datatype Owner = Owner(inode: nat, slot: nat)

  /** Data block x has address dataStart + x. `nodes` are the inodes in use as memory has them, `table`
      as the disk has them. */
  datatype Volume = Volume(
    dataStart: nat, blocks: seq<seq<byte>>, bits: seq<bool>, diskBits: seq<bool>, iBits: seq<bool>, diskIBits: seq<bool>,
    nodes: map<nat, Node>, table: map<nat, Node>, owner: map<nat, Owner>, leaked: set<nat>)

  // ---------- The invariant ----------

  predicate Geometry(v: Volume) {
    && v.dataStart > 0 && |v.bits| == |v.blocks| && |v.diskBits| == |v.bits| && |v.diskIBits| == |v.iBits|
    && |v.bits| % 8 == 0 && |v.iBits| % 8 == 0
    && forall x :: 0 <= x < |v.blocks| ==> |v.blocks[x]| == BLOCK
  }

  predicate NodeOk(v: Volume, i: nat) {
    i in v.nodes ==> i < |v.iBits| && v.iBits[i] && |v.nodes[i].sectors| == 13
  }

  /** Block k of inode i is in the data area, marked as used, and recorded as this inode's. */
  predicate SlotOk(v: Volume, i: nat, k: nat) {
    i in v.nodes && k < |v.nodes[i].sectors| && v.nodes[i].sectors[k] != 0 ==>
      && v.dataStart <= v.nodes[i].sectors[k] < v.dataStart + |v.bits|
      && var x := v.nodes[i].sectors[k] - v.dataStart;
      v.bits[x] && x in v.owner && v.owner[x] == Owner(i, k)
  }

  predicate OwnerOk(v: Volume, x: nat) {
    x in v.owner ==>
      && x < |v.bits| && v.owner[x].inode in v.nodes && v.owner[x].slot < |v.nodes[v.owner[x].inode].sectors|
      && v.nodes[v.owner[x].inode].sectors[v.owner[x].slot] == v.dataStart + x
  }

  /** A set bit belongs to a block in use, or to one that was lost. */
  predicate BitOk(v: Volume, x: nat) {
    x < |v.bits| ==> (v.bits[x] <==> x in v.owner || x in v.leaked) && !(x in v.owner && x in v.leaked)
  }

  /** An inode's bit is set only for inodes in use. */
  predicate InodeBitOk(v: Volume, i: nat) {
    i < |v.iBits| && v.iBits[i] ==> i in v.nodes
  }

  ghost predicate Inv(v: Volume) {
    && Geometry(v)
    && (forall i {:trigger NodeOk(v, i)} :: NodeOk(v, i))
    && (forall i, k {:trigger SlotOk(v, i, k)} :: SlotOk(v, i, k))
    && (forall x {:trigger OwnerOk(v, x)} :: OwnerOk(v, x))
    && (forall x {:trigger BitOk(v, x)} :: BitOk(v, x))
    && (forall i {:trigger InodeBitOk(v, i)} :: InodeBitOk(v, i))
  }

  /** Memory and disk agree: a remount would find the same volume. */
  predicate Synced(v: Volume) {
    v.diskBits == v.bits && v.diskIBits == v.iBits && v.table == v.nodes
  }

  /** No block belongs to two inodes, or twice to one. */
  lemma BlocksAreApart(v: Volume, i: nat, k: nat, j: nat, m: nat)
    requires Inv(v) && i in v.nodes && j in v.nodes && k < 13 && m < 13
    requires |v.nodes[i].sectors| == 13 && |v.nodes[j].sectors| == 13
    requires v.nodes[i].sectors[k] != 0 && v.nodes[i].sectors[k] == v.nodes[j].sectors[m]
    ensures i == j && k == m
    ensures v.dataStart <= v.nodes[i].sectors[k] < v.dataStart + |v.bits| && v.bits[v.nodes[i].sectors[k] - v.dataStart]
  {
    assert SlotOk(v, i, k) && SlotOk(v, j, m);
  }

  // ---------- Blocks taken and given back ----------

  /** bitmap_sync: the 512 bytes of the bitmap around bit x go to the disk. */
  function BitmapSync(disk: seq<bool>, bits: seq<bool>, x: nat): (r: seq<bool>)
    requires |disk| == |bits| && x < |bits|
    ensures |r| == |disk| && r[x] == bits[x]
    ensures forall y :: 0 <= y < |bits| ==> r[y] == bits[y] || r[y] == disk[y]
    ensures (forall y :: 0 <= y < |bits| && y != x ==> disk[y] == bits[y]) ==> r == bits
  {
    var from := x / 4096 * 4096;
    assert from <= x < from + 4096;
    var to := if from + 4096 <= |bits| then from + 4096 else |bits|;
    disk[..from] + bits[from..to] + disk[to..]
  }

  function WithSector(n: Node, k: nat, lba: nat): Node
    requires k < |n.sectors|
  {
    n.(sectors := n.sectors[k := lba])
  }

  /** block_bitmap_alloc, bitmap_sync and the store into i_sectors[k]. */
  function Take(v: Volume, i: nat, k: nat, x: nat): Volume
    requires i in v.nodes && k < |v.nodes[i].sectors| && x < |v.bits| && |v.diskBits| == |v.bits|
  {
    var bits := v.bits[x := true];
    v.(bits := bits, diskBits := BitmapSync(v.diskBits, bits, x), nodes := v.nodes[i := WithSector(v.nodes[i], k, v.dataStart + x)],
       owner := v.owner[x := Owner(i, k)])
  }

  lemma TakeKeepsInv(v: Volume, i: nat, k: nat, x: nat)
    requires Inv(v) && i in v.nodes && k < 13 && |v.nodes[i].sectors| == 13 && v.nodes[i].sectors[k] == 0
    requires x < |v.bits| && !v.bits[x]
    ensures Inv(Take(v, i, k, x)) && (v.diskBits == v.bits ==> Take(v, i, k, x).diskBits == Take(v, i, k, x).bits)
    ensures x !in v.owner && x !in v.leaked
  {
    hide BitmapSync;
    var r := Take(v, i, k, x);
    assert BitOk(v, x);
    forall j ensures NodeOk(r, j) { assert NodeOk(v, j); }
    forall j, m ensures SlotOk(r, j, m) { assert SlotOk(v, j, m); }
    forall y ensures OwnerOk(r, y) { assert OwnerOk(v, y); }
    forall y ensures BitOk(r, y) { assert BitOk(v, y); }
    forall j ensures InodeBitOk(r, j) { assert InodeBitOk(v, j); }
  }

  /** bitmap_set to 0, bitmap_sync and the 0 in i_sectors[k]. */
  function Give(v: Volume, i: nat, k: nat): Volume
    requires i in v.nodes && k < |v.nodes[i].sectors| && |v.diskBits| == |v.bits|
    requires v.dataStart <= v.nodes[i].sectors[k] < v.dataStart + |v.bits|
  {
    var x := v.nodes[i].sectors[k] - v.dataStart;
    var bits := v.bits[x := false];
    v.(bits := bits, diskBits := BitmapSync(v.diskBits, bits, x), nodes := v.nodes[i := WithSector(v.nodes[i], k, 0)],
       owner := v.owner - {x})
  }

  lemma GiveKeepsInv(v: Volume, i: nat, k: nat)
    requires Inv(v) && i in v.nodes && k < 13 && |v.nodes[i].sectors| == 13 && v.nodes[i].sectors[k] != 0
    ensures v.dataStart <= v.nodes[i].sectors[k] < v.dataStart + |v.bits|
    ensures Inv(Give(v, i, k)) && (v.diskBits == v.bits ==> Give(v, i, k).diskBits == Give(v, i, k).bits)
  {
    hide BitmapSync;
    assert SlotOk(v, i, k);
    var r := Give(v, i, k);
    var x := v.nodes[i].sectors[k] - v.dataStart;
    forall j ensures NodeOk(r, j) { assert NodeOk(v, j); }
    forall j, m ensures SlotOk(r, j, m) { assert SlotOk(v, j, m); }
    forall y ensures OwnerOk(r, y) { assert OwnerOk(v, y); }
    forall y ensures BitOk(r, y) { assert BitOk(v, y); }
    forall j ensures InodeBitOk(r, j) { assert InodeBitOk(v, j); }
  }

  // ---------- Contents and sizes ----------

  function Put(v: Volume, x: nat, data: seq<byte>): Volume
    requires x < |v.blocks|
  {
    v.(blocks := v.blocks[x := data])
  }

  function Resize(v: Volume, i: nat, size: nat): Volume
    requires i in v.nodes
  {
    v.(nodes := v.nodes[i := v.nodes[i].(size := size)])
  }

  /** inode_sync, for inodes numbered below 256. */
  function SyncNode(v: Volume, i: nat): Volume
    requires i in v.nodes
  {
    v.(table := v.table[i := v.nodes[i]])
  }

  lemma PutKeepsInv(v: Volume, x: nat, data: seq<byte>)
    requires Inv(v) && x < |v.blocks| && |data| == BLOCK
    ensures Inv(Put(v, x, data))
  {
    var r := Put(v, x, data);
    forall j ensures NodeOk(r, j) { assert NodeOk(v, j); }
    forall j, m ensures SlotOk(r, j, m) { assert SlotOk(v, j, m); }
    forall y ensures OwnerOk(r, y) { assert OwnerOk(v, y); }
    forall y ensures BitOk(r, y) { assert BitOk(v, y); }
    forall j ensures InodeBitOk(r, j) { assert InodeBitOk(v, j); }
  }

  lemma ResizeKeepsInv(v: Volume, i: nat, size: nat)
    requires Inv(v) && i in v.nodes
    ensures Inv(Resize(v, i, size))
  {
    var r := Resize(v, i, size);
    forall j ensures NodeOk(r, j) { assert NodeOk(v, j); }
    forall j, m ensures SlotOk(r, j, m) { assert SlotOk(v, j, m); }
    forall y ensures OwnerOk(r, y) { assert OwnerOk(v, y); }
    forall y ensures BitOk(r, y) { assert BitOk(v, y); }
    forall j ensures InodeBitOk(r, j) { assert InodeBitOk(v, j); }
  }

  lemma SyncNodeKeepsInv(v: Volume, i: nat)
    requires Inv(v) && i in v.nodes
    ensures Inv(SyncNode(v, i))
  {
    var r := SyncNode(v, i);
    forall j ensures NodeOk(r, j) { assert NodeOk(v, j); }
    forall j, m ensures SlotOk(r, j, m) { assert SlotOk(v, j, m); }
    forall y ensures OwnerOk(r, y) { assert OwnerOk(v, y); }
    forall y ensures BitOk(r, y) { assert BitOk(v, y); }
    forall j ensures InodeBitOk(r, j) { assert InodeBitOk(v, j); }
  }

  // ---------- Inodes made and released ----------

  function EmptyNode(): Node {
    Node(0, seq(13, _ => 0))
  }

  /** inode_bitmap_alloc and inode_init; the bit reaches the disk later. */
  function AddNode(v: Volume, i: nat): Volume
    requires i < |v.iBits|
  {
    v.(iBits := v.iBits[i := true], nodes := v.nodes[i := EmptyNode()])
  }

  lemma AddNodeKeepsInv(v: Volume, i: nat)
    requires Inv(v) && i < |v.iBits| && !v.iBits[i]
    ensures i !in v.nodes && Inv(AddNode(v, i))
  {
    var r := AddNode(v, i);
    assert NodeOk(v, i);
    forall j ensures NodeOk(r, j) { assert NodeOk(v, j); }
    forall j, m ensures SlotOk(r, j, m) { assert SlotOk(v, j, m); }
    forall y ensures OwnerOk(r, y) { assert OwnerOk(v, y); }
    forall y ensures BitOk(r, y) { assert BitOk(v, y); }
    forall j ensures InodeBitOk(r, j) { assert InodeBitOk(v, j); }
  }

  /** The rollback of file_create and sys_mkdir: the inode's bit is cleared again. What it had of blocks
      stays marked as used, and nobody owns it. */
  function Abandon(v: Volume, i: nat): Volume
    requires i < |v.iBits|
  {
    v.(iBits := v.iBits[i := false], nodes := v.nodes - {i},
       owner := map x | x in v.owner && v.owner[x].inode != i :: v.owner[x],
       leaked := v.leaked + set x | x in v.owner && v.owner[x].inode == i)
  }

  lemma AbandonKeepsInv(v: Volume, i: nat)
    requires Inv(v) && i in v.nodes
    ensures i < |v.iBits| && Inv(Abandon(v, i))
  {
    assert NodeOk(v, i);
    var r := Abandon(v, i);
    forall j ensures NodeOk(r, j) { assert NodeOk(v, j); }
    forall j, m ensures SlotOk(r, j, m) { assert SlotOk(v, j, m); }
    forall y ensures OwnerOk(r, y) { assert OwnerOk(v, y); }
    forall y ensures BitOk(r, y) { assert BitOk(v, y); }
    forall j ensures InodeBitOk(r, j) { assert InodeBitOk(v, j); }
  }

  function SyncInodeBit(v: Volume, i: nat): Volume
    requires i < |v.iBits| && |v.diskIBits| == |v.iBits|
  {
    v.(diskIBits := BitmapSync(v.diskIBits, v.iBits, i))
  }

  lemma SyncInodeBitKeepsInv(v: Volume, i: nat)
    requires Inv(v) && i < |v.iBits|
    ensures Inv(SyncInodeBit(v, i))
  {
    var r := SyncInodeBit(v, i);
    forall j ensures NodeOk(r, j) { assert NodeOk(v, j); }
    forall j, m ensures SlotOk(r, j, m) { assert SlotOk(v, j, m); }
    forall y ensures OwnerOk(r, y) { assert OwnerOk(v, y); }
    forall y ensures BitOk(r, y) { assert BitOk(v, y); }
    forall j ensures InodeBitOk(r, j) { assert InodeBitOk(v, j); }
  }

  /** The end of inode_release, when the inode has no block left: its bit is cleared and synced, and
      inode_delete clears its slot in the table. */
  function DropNode(v: Volume, i: nat): Volume
    requires i < |v.iBits| && |v.diskIBits| == |v.iBits|
  {
    var iBits := v.iBits[i := false];
    v.(iBits := iBits, diskIBits := BitmapSync(v.diskIBits, iBits, i), nodes := v.nodes - {i}, table := v.table - {i})
  }

  lemma DropNodeKeepsInv(v: Volume, i: nat)
    requires Inv(v) && i in v.nodes && forall k :: 0 <= k < |v.nodes[i].sectors| ==> v.nodes[i].sectors[k] == 0
    ensures i < |v.iBits| && Inv(DropNode(v, i))
    ensures v.diskIBits == v.iBits ==> DropNode(v, i).diskIBits == DropNode(v, i).iBits
  {
    hide BitmapSync;
    assert NodeOk(v, i);
    var r := DropNode(v, i);
    forall j ensures NodeOk(r, j) { assert NodeOk(v, j); }
    forall j, m ensures SlotOk(r, j, m) { assert SlotOk(v, j, m); }
    forall y ensures OwnerOk(r, y) { assert OwnerOk(v, y); }
    forall y ensures BitOk(r, y) { assert BitOk(v, y); }
    forall j ensures InodeBitOk(r, j) { assert InodeBitOk(v, j); }
  }

  // ---------- What a change leaves alone ----------

  /** Inode j is the same, and so are its blocks. */
  predicate SameNode(v: Volume, r: Volume, j: nat) {
    && (j in v.nodes <==> j in r.nodes)
    && (j in v.nodes ==> r.nodes[j] == v.nodes[j])
    && forall k {:trigger BlockOf(v, j, k)} :: 0 <= k < 13 ==> BlockOf(r, j, k) == BlockOf(v, j, k)
  }

  /** The contents of block k of inode j, or nothing. */
  function BlockOf(v: Volume, j: nat, k: nat): seq<byte> {
    if j in v.nodes && k < |v.nodes[j].sectors| && v.dataStart <= v.nodes[j].sectors[k] < v.dataStart + |v.blocks| && v.nodes[j].sectors[k] != 0 then
      v.blocks[v.nodes[j].sectors[k] - v.dataStart]
    else []
  }

  /** A store into a block that is not j's leaves j the same. */
  lemma PutElsewhere(v: Volume, x: nat, data: seq<byte>, j: nat)
    requires Inv(v) && x < |v.blocks| && (x in v.owner ==> v.owner[x].inode != j)
    ensures SameNode(v, Put(v, x, data), j)
  {
    var r := Put(v, x, data);
    forall k | 0 <= k < 13
      ensures BlockOf(r, j, k) == BlockOf(v, j, k)
    {
      assert SlotOk(v, j, k);
    }
  }

  lemma SameNodeTransitive(v: Volume, t: Volume, r: Volume, j: nat)
    requires SameNode(v, t, j) && SameNode(t, r, j)
    ensures SameNode(v, r, j)
  {
    forall k | 0 <= k < 13
      ensures BlockOf(r, j, k) == BlockOf(v, j, k)
    {
      assert BlockOf(t, j, k) == BlockOf(v, j, k);
    }
  }

  /** r differs from v in inode i and its blocks, and in nothing else. */
  ghost predicate Only(v: Volume, r: Volume, i: nat) {
    && r.dataStart == v.dataStart && |r.bits| == |v.bits| && r.iBits == v.iBits && r.diskIBits == v.diskIBits && r.leaked == v.leaked
    && r.nodes.Keys == v.nodes.Keys && (v.table.Keys == r.table.Keys || r.table.Keys == v.table.Keys + {i})
    && (forall j {:trigger SameElsewhere(v, r, i, j)} :: SameElsewhere(v, r, i, j))
  }

  predicate SameElsewhere(v: Volume, r: Volume, i: nat, j: nat) {
    j != i ==> SameNode(v, r, j) && (j in v.table <==> j in r.table) && (j in v.table && j in r.table ==> r.table[j] == v.table[j])
  }

  lemma OnlyTransitive(v: Volume, t: Volume, r: Volume, i: nat)
    requires Only(v, t, i) && Only(t, r, i)
    ensures Only(v, r, i)
  {
    forall j ensures SameElsewhere(v, r, i, j) {
      assert SameElsewhere(v, t, i, j) && SameElsewhere(t, r, i, j);
      if j != i {
        SameNodeTransitive(v, t, r, j);
      }
    }
  }

  lemma TakeIsLocal(v: Volume, i: nat, k: nat, x: nat)
    requires Inv(v) && i in v.nodes && k < 13 && |v.nodes[i].sectors| == 13 && v.nodes[i].sectors[k] == 0
    requires x < |v.bits| && !v.bits[x]
    ensures var r := Take(v, i, k, x);
            && Only(v, r, i) && FreeCount(r.bits) == FreeCount(v.bits) - 1
            && forall m :: 0 <= m < 13 && m != k ==> BlockOf(r, i, m) == BlockOf(v, i, m)
  {
    hide BitmapSync;
    FreeCountUpdate(v.bits, x, true);
    var r := Take(v, i, k, x);
    forall j ensures SameElsewhere(v, r, i, j) {}
  }

  lemma GiveIsLocal(v: Volume, i: nat, k: nat)
    requires Inv(v) && i in v.nodes && k < 13 && |v.nodes[i].sectors| == 13 && v.nodes[i].sectors[k] != 0
    ensures v.dataStart <= v.nodes[i].sectors[k] < v.dataStart + |v.bits|
    ensures var r := Give(v, i, k);
            && Only(v, r, i) && r.table == v.table && i in r.nodes && r.nodes[i] == WithSector(v.nodes[i], k, 0)
            && FreeCount(r.bits) == FreeCount(v.bits) + 1
            && forall m :: 0 <= m < 13 && m != k ==> BlockOf(r, i, m) == BlockOf(v, i, m)
  {
    hide BitmapSync;
    assert SlotOk(v, i, k);
    FreeCountUpdate(v.bits, v.nodes[i].sectors[k] - v.dataStart, false);
    var r := Give(v, i, k);
    forall j ensures SameElsewhere(v, r, i, j) {}
  }

  lemma ResizeIsLocal(v: Volume, i: nat, size: nat)
    requires i in v.nodes
    ensures Only(v, Resize(v, i, size), i) && i in Resize(v, i, size).nodes && Resize(v, i, size).nodes[i] == v.nodes[i].(size := size)
    ensures forall m :: 0 <= m < 13 ==> BlockOf(Resize(v, i, size), i, m) == BlockOf(v, i, m)
  {
    forall j ensures SameElsewhere(v, Resize(v, i, size), i, j) {}
  }

  lemma SyncNodeIsLocal(v: Volume, i: nat)
    requires i in v.nodes
    ensures Only(v, SyncNode(v, i), i)
    ensures forall m :: 0 <= m < 13 ==> BlockOf(SyncNode(v, i), i, m) == BlockOf(v, i, m)
  {
    forall j ensures SameElsewhere(v, SyncNode(v, i), i, j) {}
  }

  /** When only inode i has changed and is written back, memory and disk agree again. */
  lemma SyncedAgain(v: Volume, r: Volume, i: nat)
    requires Synced(v) && Only(v, r, i) && i in r.nodes && i in r.table && r.table[i] == r.nodes[i] && r.diskBits == r.bits
    ensures Synced(r)
  {
    forall j
      ensures j in r.table <==> j in r.nodes
      ensures j in r.table ==> r.table[j] == r.nodes[j]
    {
      assert SameElsewhere(v, r, i, j);
    }
  }
}
