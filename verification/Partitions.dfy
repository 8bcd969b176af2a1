/** The mounted partition as the file system's routines change it (struct partition and the routines on
    bitmaps and inodes in fs/file.c:55-96 and fs/inode.c:169-234). */
module Partitions {
  import opened Outcomes
  import opened Bitmap
  import opened Bytes
  import opened Volume

  class Partition {
    const dataStart: nat
    var blocks: seq<seq<byte>>
    var bits: seq<bool>
    var diskBits: seq<bool>
    var iBits: seq<bool>
    var diskIBits: seq<bool>
    var nodes: map<nat, Node>
    var table: map<nat, Node>
    var stopped: bool                // a bitmap_scan met a full bitmap: a kernel built with ASSERTs has stopped
    ghost var owner: map<nat, Owner>
    ghost var leaked: set<nat>

    ghost function View(): Volume
      reads this
    {
      Volume(dataStart, blocks, bits, diskBits, iBits, diskIBits, nodes, table, owner, leaked)
    }

    ghost predicate Valid()
      reads this
    {
      Inv(View())
    }

    /** block_bitmap_alloc, the store of the address into i_sectors[k], and bitmap_sync. */
    method BlockAllocFor(i: nat, k: nat) returns (lba: Option<nat>)
      requires Valid() && i in nodes && k < 13 && |nodes[i].sectors| == 13 && nodes[i].sectors[k] == 0
      modifies this`bits, this`diskBits, this`nodes, this`owner, this`stopped
      ensures Valid() && stopped == (old(stopped) || FirstFree(old(bits)) == None)
      ensures match FirstFree(old(bits))
              case None => lba == None && View() == old(View())
              case Some(x) => lba == Some(dataStart + x) && |old(diskBits)| == |old(bits)| && View() == Take(old(View()), i, k, x)
    {
      hide BitmapSync, Fit, FreeCount;
      FreeCountZeroIff(bits);
      var bit, stops := Scan(bits, true, 1);
      stopped := stopped || stops;
      FirstFitIsUnique(bits, 1, bit, Fit(bits, 1));
      match bit
      case None => lba := None;
      case Some(x) =>
        assert ClearRun(bits, x, 1);
        TakeKeepsInv(View(), i, k, x);
        bits := bits[x := true];
        nodes := nodes[i := WithSector(nodes[i], k, dataStart + x)];
        diskBits := BitmapSync(diskBits, bits, x);
        owner := owner[x := Owner(i, k)];
        lba := Some(dataStart + x);
    }

    /** bitmap_set to 0, bitmap_sync and i_sectors[k] = 0. */
    method BlockFree(i: nat, k: nat)
      requires Valid() && i in nodes && k < 13 && |nodes[i].sectors| == 13 && nodes[i].sectors[k] != 0
      modifies this`bits, this`diskBits, this`nodes, this`owner
      ensures Valid() && |old(diskBits)| == |old(bits)|
      ensures dataStart <= old(nodes)[i].sectors[k] < dataStart + |old(bits)| && View() == Give(old(View()), i, k)
    {
      hide BitmapSync;
      GiveKeepsInv(View(), i, k);
      var x := nodes[i].sectors[k] - dataStart;
      bits := bits[x := false];
      diskBits := BitmapSync(diskBits, bits, x);
      nodes := nodes[i := WithSector(nodes[i], k, 0)];
      owner := owner - {x};
    }

    /** ide_read of block k of inode i. */
    method ReadBlock(i: nat, k: nat) returns (buf: seq<byte>)
      requires Valid() && i in nodes && k < 13 && |nodes[i].sectors| == 13 && nodes[i].sectors[k] != 0
      ensures buf == BlockOf(View(), i, k) && |buf| == BLOCK
    {
      assert SlotOk(View(), i, k);
      buf := blocks[nodes[i].sectors[k] - dataStart];
    }

    /** ide_write of block k of inode i: no other block of any inode changes. */
    method WriteBlock(i: nat, k: nat, buf: seq<byte>)
      requires Valid() && i in nodes && k < 13 && |nodes[i].sectors| == 13 && nodes[i].sectors[k] != 0 && |buf| == BLOCK
      modifies this`blocks
      ensures Valid() && WrittenTo(old(View()), View(), i, k, buf)
    {
      WriteIsLocal(View(), i, k, buf);
      blocks := blocks[nodes[i].sectors[k] - dataStart := buf];
    }

    /** i_size = size. */
    method SetSize(i: nat, size: nat)
      requires Valid() && i in nodes
      modifies this`nodes
      ensures Valid() && i in old(nodes) && View() == Resize(old(View()), i, size)
    {
      ResizeKeepsInv(View(), i, size);
      nodes := nodes[i := nodes[i].(size := size)];
    }

    /** inode_sync, for an inode numbered below 256 (module InodeTable). */
    method InodeSync(i: nat)
      requires Valid() && i in nodes && i < 256
      modifies this`table
      ensures Valid() && i in old(nodes) && View() == SyncNode(old(View()), i)
    {
      SyncNodeKeepsInv(View(), i);
      table := table[i := nodes[i]];
    }

    /** inode_bitmap_alloc and inode_init. */
    method InodeAlloc() returns (r: Option<nat>)
      requires Valid()
      modifies this`iBits, this`nodes, this`stopped
      ensures Valid() && r == FirstFree(old(iBits)) && stopped == (old(stopped) || r == None)
      ensures match r
              case None => View() == old(View())
              case Some(i) => i !in old(nodes) && View() == AddNode(old(View()), i)
    {
      hide Fit;
      FreeCountZeroIff(iBits);
      var stops;
      r, stops := Scan(iBits, true, 1);
      stopped := stopped || stops;
      FirstFitIsUnique(iBits, 1, r, Fit(iBits, 1));
      match r
      case None =>
      case Some(i) =>
        assert ClearRun(iBits, i, 1);
        AddNodeKeepsInv(View(), i);
        iBits := iBits[i := true];
        nodes := nodes[i := EmptyNode()];
    }

    /** bitmap_set to 0 in a rollback; the inode in memory is freed. */
    method InodeAbandon(i: nat)
      requires Valid() && i in nodes
      modifies this`iBits, this`nodes, this`owner, this`leaked
      ensures Valid() && i < |old(iBits)| && View() == Abandon(old(View()), i)
    {
      AbandonKeepsInv(View(), i);
      ghost var r := Abandon(View(), i);
      iBits := iBits[i := false];
      nodes := nodes - {i};
      owner, leaked := r.owner, r.leaked;
    }

    /** bitmap_sync of the inode bitmap. */
    method InodeBitSync(i: nat)
      requires Valid() && i < |iBits|
      modifies this`diskIBits
      ensures Valid() && |old(diskIBits)| == |old(iBits)| && View() == SyncInodeBit(old(View()), i)
    {
      SyncInodeBitKeepsInv(View(), i);
      diskIBits := BitmapSync(diskIBits, iBits, i);
    }

    /** The end of inode_release and inode_delete. */
    method InodeDrop(i: nat)
      requires Valid() && i in nodes && forall k :: 0 <= k < |nodes[i].sectors| ==> nodes[i].sectors[k] == 0
      modifies this`iBits, this`diskIBits, this`nodes, this`table
      ensures Valid() && i < |old(iBits)| && |old(diskIBits)| == |old(iBits)| && View() == DropNode(old(View()), i)
    {
      DropNodeKeepsInv(View(), i);
      iBits := iBits[i := false];
      diskIBits := BitmapSync(diskIBits, iBits, i);
      nodes := nodes - {i};
      table := table - {i};
    }
  }

  /** r is v after a store of `buf` into block k of inode i. */
  ghost predicate WrittenTo(v: Volume, r: Volume, i: nat, k: nat, buf: seq<byte>) {
    && r == v.(blocks := r.blocks)
    && BlockOf(r, i, k) == buf
    && (forall m {:trigger BlockOf(r, i, m)} :: 0 <= m < 13 && m != k ==> BlockOf(r, i, m) == BlockOf(v, i, m))
    && Only(v, r, i)
  }

  lemma WriteIsLocal(v: Volume, i: nat, k: nat, buf: seq<byte>)
    requires Inv(v) && i in v.nodes && k < 13 && |v.nodes[i].sectors| == 13 && v.nodes[i].sectors[k] != 0 && |buf| == BLOCK
    ensures v.dataStart <= v.nodes[i].sectors[k] < v.dataStart + |v.blocks|
    ensures var r := Put(v, v.nodes[i].sectors[k] - v.dataStart, buf); Inv(r) && WrittenTo(v, r, i, k, buf)
  {
    assert SlotOk(v, i, k);
    var x := v.nodes[i].sectors[k] - v.dataStart;
    PutKeepsInv(v, x, buf);
    forall j: nat ensures SameElsewhere(v, Put(v, x, buf), i, j) {
      if j != i {
        PutElsewhere(v, x, buf, j);
      }
    }
    forall m: nat | m < 13 && m != k
      ensures BlockOf(Put(v, x, buf), i, m) == BlockOf(v, i, m)
    {
      assert SlotOk(v, i, m);
    }
  }
}
