/**
  What partition_format leaves behind (fs/fs.c:79-188): the block bitmap, with one clear bit too many, and
  the root directory. It is the state that module FileTree's runs start from.
 */
module Format {
  import opened Outcomes
  import opened Bitmap
  import opened Bytes
  import opened Volume
  import opened Directory
  import opened Directories
  import opened FileTree
  import FileSystem

  const BITS_PER_SECTOR := 4096

  /** What the format makes of bit x, for `cnt` blocks. With fewer than 8 blocks the last byte is the
      first, and the root's bit is cleared again. */
  predicate FormattedBit(cnt: nat, x: nat) {
    x > cnt || (x == 0 && cnt >= 8)
  }

  /** The block bitmap in the format's buffer: block 0 is the root's, and the bits past the last block are
      set, to the end of the sector that the last byte lies in. The loop that clears the last byte's bits
      again goes on to the bit of block `cnt`, which the partition does not have. */
  method FormatBlockBitmap(buf: array<bool>, cnt: nat)
    requires cnt / BITS_PER_SECTOR < buf.Length / BITS_PER_SECTOR && buf.Length % BITS_PER_SECTOR == 0
    requires forall x :: 0 <= x < buf.Length ==> !buf[x]
    modifies buf
    ensures forall x :: 0 <= x < buf.Length ==> (buf[x] <==> (cnt < x < (cnt / 4096 + 1) * 4096) || (x == 0 && cnt >= 8))
    ensures BitmapBits(cnt) <= buf.Length && buf[..BitmapBits(cnt)] == FormattedBits(BitmapBits(cnt), cnt)
  {
    buf[0] := true;
    var lastByte, lastBit := cnt / 8, cnt % 8;
    var end := SectorEnd(cnt);
    EndOfSector(cnt, buf.Length);
    var x := 8 * lastByte;
    while x < end
      invariant 8 * lastByte <= x <= end <= buf.Length
      invariant forall y :: 0 <= y < buf.Length ==> (buf[y] <==> y == 0 || 8 * lastByte <= y < x)
    {
      buf[x] := true;
      x := x + 1;
    }
    var bit := 0;
    while bit <= lastBit
      invariant 0 <= bit <= lastBit + 1
      invariant forall y :: 0 <= y < buf.Length ==> (buf[y] <==> (y == 0 && cnt >= 8) || 8 * lastByte + bit <= y < end || (y == 0 && bit == 0))
    {
      buf[8 * lastByte + bit] := false;
      bit := bit + 1;
    }
  }

  /** The end of the bitmap's last sector, as the format's memset understands it. */
  function SectorEnd(cnt: nat): nat {
    (cnt / BITS_PER_SECTOR + 1) * BITS_PER_SECTOR
  }

  /** The bits of the sectors that go to the disk: enough for cnt. */
  function BitmapBits(cnt: nat): nat {
    (cnt + BITS_PER_SECTOR - 1) / BITS_PER_SECTOR * BITS_PER_SECTOR
  }

  lemma EndOfSector(cnt: nat, n: nat)
    requires cnt / BITS_PER_SECTOR < n / BITS_PER_SECTOR && n % BITS_PER_SECTOR == 0
    ensures cnt < SectorEnd(cnt) <= n && BitmapBits(cnt) <= SectorEnd(cnt) && SectorEnd(cnt) % 8 == 0
  {}

  /** The bitmap on the disk and, after mounting, in memory. */
  function FormattedBits(n: nat, cnt: nat): seq<bool> {
    seq(n, x requires x >= 0 => FormattedBit(cnt, x))
  }

  /** When block_bitmap_alloc hands out the block that the partition does not have: exactly when every block
      before it is in use. */
  lemma MissingBlockTakenIff(bits: seq<bool>, cnt: nat)
    requires cnt < |bits| && !bits[cnt]
    ensures FirstFree(bits) == Some(cnt) <==> forall x :: 0 <= x < cnt ==> bits[x]
  {
    FirstFreeIsFirst(bits);
  }

  /** On a partition of fewer than 8 blocks the root's block is the first to be handed out again. */
  lemma RootIsFreeIff(n: nat, cnt: nat)
    requires n > 0
    ensures FirstFree(FormattedBits(n, cnt)) == Some(0) <==> cnt < 8
  {
    FirstFreeIsFirst(FormattedBits(n, cnt));
    assert FormattedBits(n, cnt)[0] == FormattedBit(cnt, 0);
    if cnt < 8 {
      assert ClearRun(FormattedBits(n, cnt), 0, 1);
    }
  }

  lemma FirstFreeIsFirst(bits: seq<bool>)
    ensures FirstFree(bits).Some? ==> forall x :: 0 <= x < FirstFree(bits).value ==> bits[x]
  {
    if FirstFree(bits).Some? {
      forall x: nat | x < FirstFree(bits).value
        ensures bits[x]
      {
        assert !ClearRun(bits, x, 1);
      }
    }
  }

  function RootNode(dataStart: nat): Node {
    Node(2 * ENTRY, seq(13, _ => 0)[0 := dataStart])
  }

  /** The partition after mounting: an empty root directory in the first data block. Bits past the end
      are set and belong to nobody. Block `cnt`, whose bit is clear, is where the model and the partition
      part: the model has storage for it, and the runs below are those in which nobody gets it. */
  function Formatted(dataStart: nat, n: nat, cnt: nat, m: nat): Volume
    requires n > 0 && m > 0
  {
    var bits, iBits := FormattedBits(n, cnt), seq(m, i => i == 0);
    var nodes := map[0 := RootNode(dataStart)];
    Volume(dataStart, seq(n, _ => Zeros(BLOCK))[0 := FileSystem.DotsBlock(0, 0)], bits, bits, iBits, iBits, nodes, nodes,
           map[0 := Owner(0, 0)], set x: nat | x < n && x > 0 && FormattedBit(cnt, x))
  }

  /** What is on it, bit by bit. */
  lemma FormattedIs(dataStart: nat, n: nat, cnt: nat, m: nat)
    requires n > 0 && m > 0 && cnt >= 8
    ensures var v := Formatted(dataStart, n, cnt, m);
            && v.dataStart == dataStart && |v.bits| == |v.diskBits| == |v.blocks| == n && |v.iBits| == |v.diskIBits| == m
            && (forall x :: 0 <= x < n ==> (v.bits[x] <==> x == 0 || x > cnt) && v.diskBits[x] == v.bits[x])
            && (forall i :: 0 <= i < m ==> (v.iBits[i] <==> i == 0) && v.diskIBits[i] == v.iBits[i])
            && v.nodes.Keys == {0} && v.table == v.nodes && v.nodes[0].size == 48 && |v.nodes[0].sectors| == 13
            && v.nodes[0].sectors[0] == dataStart && forall k :: 0 < k < 13 ==> v.nodes[0].sectors[k] == 0
  {
    hide FileSystem.DotsBlock;
  }

  function RootTree(): map<nat, Place> {
    map[0 := Place(true, 0, 0)]
  }

  /** A freshly formatted partition satisfies the invariant. */
  lemma FormattedIsTree(dataStart: nat, n: nat, cnt: nat, m: nat)
    requires dataStart > 0 && n > 0 && n % 8 == 0 && m > 0 && m % 8 == 0 && cnt >= 8
    ensures FsInv(Fs(Formatted(dataStart, n, cnt, m), RootTree()))
  {
    var v := Formatted(dataStart, n, cnt, m);
    FormattedInv(dataStart, n, cnt, m);
    FormattedRoot(dataStart, n, cnt, m);
    FormattedSynced(dataStart, n, cnt, m);
    hide *;
    var f := Fs(v, RootTree());
    forall i: nat
      ensures PlaceOk(f, i)
    {
      OnlyRoot(f, i);
    }
    forall d: nat, e: Entry
      ensures EntryOk(f, d, e)
    {
      OnlyDotEntries(f, d, e);
    }
    RootKeys();
    FsFromParts(f);
  }

  lemma RootKeys()
    ensures 0 in RootTree() && RootTree().Keys == {0}
  {}

  lemma FormattedSynced(dataStart: nat, n: nat, cnt: nat, m: nat)
    requires n > 0 && m > 0
    ensures Synced(Formatted(dataStart, n, cnt, m)) && Formatted(dataStart, n, cnt, m).nodes.Keys == {0}
  {
    hide FileSystem.DotsBlock;
  }

  lemma FormattedInv(dataStart: nat, n: nat, cnt: nat, m: nat)
    requires dataStart > 0 && n > 0 && n % 8 == 0 && m > 0 && m % 8 == 0 && cnt >= 8
    ensures Inv(Formatted(dataStart, n, cnt, m))
  {
    hide FileSystem.DotsBlock;
    var v := Formatted(dataStart, n, cnt, m);
    forall j ensures NodeOk(v, j) {}
    forall j, k ensures SlotOk(v, j, k) {}
    forall y ensures OwnerOk(v, y) {}
    forall y ensures BitOk(v, y) {}
    forall j ensures InodeBitOk(v, j) {}
  }

  lemma FormattedRoot(dataStart: nat, n: nat, cnt: nat, m: nat)
    requires dataStart > 0 && n > 0 && m > 0
    ensures var v := Formatted(dataStart, n, cnt, m);
            && DirOk(v, 0) && Populated(v, 0) && Listing(v, 0) == [DotEntry(0), DotDotEntry(0)] && FirstSector(v, 0) == v.dataStart
  {
    hide FileSystem.DotsBlock, DirOk, Populated, Listing;
    FileSystem.NewDirectory(Formatted(dataStart, n, cnt, m), 0, 0, dataStart);
  }

  lemma OnlyRoot(f: Fs, i: nat)
    requires f.tree == RootTree() && DirOk(f.v, 0) && Populated(f.v, 0) && Listing(f.v, 0) == [DotEntry(0), DotDotEntry(0)]
    requires FirstSector(f.v, 0) == f.v.dataStart
    ensures PlaceOk(f, i)
  {
    hide DirOk, Populated, Listing, FirstSector;
  }

  lemma OnlyDotEntries(f: Fs, d: nat, e: Entry)
    requires f.tree == RootTree() && Listing(f.v, 0) == [DotEntry(0), DotDotEntry(0)]
    ensures EntryOk(f, d, e)
  {
    hide Listing;
  }

  /** Nobody has been given the block that the partition does not have. */
  predicate Real(f: Fs, cnt: nat) {
    cnt < |f.v.bits| ==> !f.v.bits[cnt]
  }

  lemma BitmapBitsPositive(cnt: nat)
    requires cnt > 0
    ensures cnt <= BitmapBits(cnt) && BitmapBits(cnt) % 8 == 0
  {
    var q := (cnt + 4095) / 4096;
    assert cnt <= 4096 * q;
    assert BitmapBits(cnt) == 8 * (512 * q);
    EightTimes(512 * q);
  }

  lemma EightTimes(x: nat)
    ensures 8 * x % 8 == 0
  {}

  /** From formatting on, every state that calls lead to satisfies the invariant, as long as nobody is given
      the missing block, and then every block in use is one of the partition's. */
  lemma FromFormatOn(s: seq<Fs>, k: nat, dataStart: nat, cnt: nat, m: nat, i: nat, j: nat)
    requires dataStart > 0 && cnt >= 8 && m > 0 && m % 8 == 0
    requires k < |s| && Run(s) && BitmapBits(cnt) > 0 && s[0] == Fs(Formatted(dataStart, BitmapBits(cnt), cnt, m), RootTree())
    requires forall a :: 0 <= a <= k ==> Real(s[a], cnt)
    ensures FsInv(s[k])
    ensures i in s[k].v.nodes && j < |s[k].v.nodes[i].sectors| && s[k].v.nodes[i].sectors[j] != 0 ==>
              dataStart <= s[k].v.nodes[i].sectors[j] < dataStart + cnt
  {
    BitmapBitsPositive(cnt);
    FormattedIsTree(dataStart, BitmapBits(cnt), cnt, m);
    FormattedLost(dataStart, cnt, m);
    hide *;
    RunsKeepTheTree(s, k);
    RunStaysLost(s, k);
    FsFacts(s[k]);
    StaysInPartition(s[0], s[k], cnt, i, j);
  }

  lemma FormattedLost(dataStart: nat, cnt: nat, m: nat)
    requires m > 0 && BitmapBits(cnt) > 0
    ensures var v := Formatted(dataStart, BitmapBits(cnt), cnt, m);
            v.dataStart == dataStart && |v.bits| == BitmapBits(cnt) && forall x: nat :: cnt < x < BitmapBits(cnt) ==> x in v.leaked
  {
    hide BitmapBits, FileSystem.DotsBlock;
  }

  lemma StaysInPartition(f: Fs, g: Fs, cnt: nat, i: nat, j: nat)
    requires Inv(g.v) && StaysLost(f, g) && Real(g, cnt) && forall x: nat :: cnt < x < |f.v.bits| ==> x in f.v.leaked
    ensures i in g.v.nodes && j < |g.v.nodes[i].sectors| && g.v.nodes[i].sectors[j] != 0 ==>
              f.v.dataStart <= g.v.nodes[i].sectors[j] < f.v.dataStart + cnt
  {
    assert SlotOk(g.v, i, j);
    if i in g.v.nodes && j < |g.v.nodes[i].sectors| && g.v.nodes[i].sectors[j] != 0 {
      assert BitOk(g.v, g.v.nodes[i].sectors[j] - g.v.dataStart);
    }
  }
}
