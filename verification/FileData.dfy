/**
  Regular files as byte sequences: file_write and file_read (fs/file.c:230-531), for files that stay
  below 12 blocks.
 */
module FileData {
  import opened Outcomes
  import opened Bitmap
  import opened Bytes
  import opened Volume
  import opened Partitions

  const MAX_DIRECT := 6144           // 12 blocks: beyond, the indirect table comes in

  // ---------- The file that an inode stands for ----------

  /** How many blocks a file has: none until it is first written, and then one more than its size
      fills. */
  function BlockCount(n: Node): nat
    requires |n.sectors| == 13
  {
    if n.sectors[0] == 0 then 0 else n.size / BLOCK + 1
  }

  predicate FirstBlocks(n: Node, count: nat) {
    && |n.sectors| == 13 && count <= DIRECT && n.sectors[12] == 0
    && forall k :: 0 <= k < 12 ==> (n.sectors[k] != 0 <==> k < count)
  }

  ghost predicate FileOk(v: Volume, i: nat) {
    && i in v.nodes && |v.nodes[i].sectors| == 13 && v.nodes[i].size < MAX_DIRECT
    && (v.nodes[i].sectors[0] == 0 ==> v.nodes[i].size == 0)
    && FirstBlocks(v.nodes[i], BlockCount(v.nodes[i]))
  }

  /** The first n blocks, one after the other. */
  ghost function Text(v: Volume, i: nat, n: nat): seq<byte> {
    if n == 0 then [] else Text(v, i, n - 1) + BlockOf(v, i, n - 1)
  }

  function Front(b: seq<byte>, n: nat): seq<byte> {
    if n <= |b| then b[..n] else b
  }

  /** The bytes of the file. */
  ghost function Contents(v: Volume, i: nat): seq<byte>
    requires i in v.nodes
  {
    Upto(v, i, v.nodes[i].size / BLOCK, v.nodes[i].size % BLOCK)
  }

  /** The first k blocks and the first off bytes of block k. */
  ghost function Upto(v: Volume, i: nat, k: nat, off: nat): seq<byte> {
    Text(v, i, k) + Front(BlockOf(v, i, k), off)
  }

  lemma {:induction false} TextSame(v: Volume, r: Volume, i: nat, n: nat)
    requires forall k: nat :: k < n ==> BlockOf(r, i, k) == BlockOf(v, i, k)
    ensures Text(r, i, n) == Text(v, i, n)
  {
    if n > 0 {
      TextSame(v, r, i, n - 1);
    }
  }

  /** A file depends on its inode and its own blocks only. */
  lemma SameNodeSameFile(v: Volume, r: Volume, j: nat)
    requires SameNode(v, r, j) && FileOk(v, j)
    ensures FileOk(r, j) && Contents(r, j) == Contents(v, j)
  {
    var k := v.nodes[j].size / BLOCK;
    assert k < 12;
    TextSame(v, r, j, k);
  }

  lemma BlockSize(v: Volume, i: nat, k: nat)
    requires Inv(v) && i in v.nodes && k < |v.nodes[i].sectors| && v.nodes[i].sectors[k] != 0
    ensures |BlockOf(v, i, k)| == BLOCK
  {
    assert SlotOk(v, i, k);
  }

  lemma {:induction false} TextLength(v: Volume, i: nat, n: nat)
    requires Inv(v) && i in v.nodes && n <= 13 && |v.nodes[i].sectors| == 13 && forall k :: 0 <= k < n ==> v.nodes[i].sectors[k] != 0
    ensures |Text(v, i, n)| == BLOCK * n
  {
    if n > 0 {
      TextLength(v, i, n - 1);
      BlockSize(v, i, n - 1);
    }
  }

  /** Byte o of block q is byte 512 * q + o of the file. */
  lemma {:induction false} TextAt(v: Volume, i: nat, n: nat, q: nat, o: nat)
    requires Inv(v) && i in v.nodes && n <= 13 && |v.nodes[i].sectors| == 13 && forall k :: 0 <= k < n ==> v.nodes[i].sectors[k] != 0
    requires q < n && o < BLOCK
    ensures |Text(v, i, n)| == BLOCK * n && |BlockOf(v, i, q)| == BLOCK && Text(v, i, n)[BLOCK * q + o] == BlockOf(v, i, q)[o]
  {
    TextLength(v, i, n);
    TextLength(v, i, n - 1);
    BlockSize(v, i, q);
    if q < n - 1 {
      TextAt(v, i, n - 1, q, o);
    }
  }

  lemma ContentsLength(v: Volume, i: nat)
    requires Inv(v) && FileOk(v, i)
    ensures |Contents(v, i)| == v.nodes[i].size
  {
    var n := v.nodes[i];
    var k := n.size / BLOCK;
    assert n.size == BLOCK * k + n.size % BLOCK;
    if n.sectors[0] != 0 {
      TextLength(v, i, k);
      BlockSize(v, i, k);
    }
  }

  lemma ContentsAt(v: Volume, i: nat, q: nat, o: nat)
    requires Inv(v) && FileOk(v, i) && o < BLOCK && BLOCK * q + o < v.nodes[i].size
    ensures q < 12 && v.nodes[i].sectors[q] != 0 && |BlockOf(v, i, q)| == BLOCK && |Contents(v, i)| == v.nodes[i].size
    ensures Contents(v, i)[BLOCK * q + o] == BlockOf(v, i, q)[o]
  {
    var n := v.nodes[i];
    var k := n.size / BLOCK;
    assert n.size == BLOCK * k + n.size % BLOCK;
    ContentsLength(v, i);
    assert n.sectors[0] != 0 && q <= k;
    BlockSize(v, i, q);
    TextLength(v, i, k);
    if q < k {
      TextAt(v, i, k, q, o);
    }
  }

  /** Where byte x of a file lies on the disk. */
  lemma ByteOfFile(v: Volume, i: nat, x: nat)
    requires Inv(v) && FileOk(v, i) && x < v.nodes[i].size
    ensures |Contents(v, i)| == v.nodes[i].size && x / 512 < 12 && |v.nodes[i].sectors| == 13
    ensures var lba := v.nodes[i].sectors[x / 512];
            && v.dataStart <= lba < v.dataStart + |v.blocks| && |v.blocks[lba - v.dataStart]| == 512
            && Contents(v, i)[x] == v.blocks[lba - v.dataStart][x % 512]
  {
    assert x == BLOCK * (x / 512) + x % 512;
    ContentsAt(v, i, x / 512, x % 512);
    assert SlotOk(v, i, x / 512);
  }

  /** A stretch of the file that lies in one block. */
  lemma ContentsChunk(v: Volume, i: nat, q: nat, o: nat, c: nat)
    requires Inv(v) && FileOk(v, i) && o + c <= BLOCK && BLOCK * q + o + c <= v.nodes[i].size && c > 0
    ensures q < 12 && v.nodes[i].sectors[q] != 0 && |BlockOf(v, i, q)| == BLOCK && |Contents(v, i)| == v.nodes[i].size
    ensures Contents(v, i)[BLOCK * q + o..BLOCK * q + o + c] == BlockOf(v, i, q)[o..o + c]
  {
    ContentsAt(v, i, q, o);
    var a, b := Contents(v, i)[BLOCK * q + o..BLOCK * q + o + c], BlockOf(v, i, q)[o..o + c];
    forall j | 0 <= j < c
      ensures a[j] == b[j]
    {
      ContentsAt(v, i, q, o + j);
    }
  }

  // ---------- file_read ----------

  /** An open file: fd_pos, on 32 bits, and the inode. */
  datatype File = File(fdPos: nat, inode: nat)

  /** What file_read is to return: the next bytes, up to `count` and up to the end; None for -1. */
  ghost function NextBytes(v: Volume, f: File, count: nat): Option<seq<byte>>
    requires f.inode in v.nodes && f.fdPos <= v.nodes[f.inode].size == |Contents(v, f.inode)|
  {
    var left := v.nodes[f.inode].size - f.fdPos;
    if f.fdPos + count > v.nodes[f.inode].size && left == 0 then None
    else Some(Contents(v, f.inode)[f.fdPos..f.fdPos + if count <= left then count else left])
  }

  lemma NextBytesAre(v: Volume, f: File, count: nat)
    requires f.inode in v.nodes && f.fdPos <= v.nodes[f.inode].size == |Contents(v, f.inode)|
    ensures var left, r := v.nodes[f.inode].size - f.fdPos, NextBytes(v, f, count);
            && r == (if left == 0 && count > 0 then None else Some(Contents(v, f.inode)[f.fdPos..f.fdPos + if count <= left then count else left]))
            && (r.Some? ==>
                  && |r.value| <= count && f.fdPos + |r.value| <= v.nodes[f.inode].size
                  && (|r.value| == count || f.fdPos + |r.value| == v.nodes[f.inode].size)
                  && forall k :: 0 <= k < |r.value| ==> r.value[k] == Contents(v, f.inode)[f.fdPos + k])
  {
    hide Contents;
  }

  /** file_read, for the fd_pos that seeks and reads leave, and for the one that file_write leaves in a file
      that was empty. There the ASSERT on the block numbers fails, and `stops` says so: the sums and the
      difference are on 32 bits. Otherwise the block numbers it collects are those it then reads. */
  method FileRead(p: Partition, f: File, count: nat) returns (g: File, r: Option<seq<byte>>, stops: bool)
    requires p.Valid() && FileOk(p.View(), f.inode) && count < 0x1_0000_0000
    requires f.fdPos == 0x1_0000_0000 - 1 || (f.fdPos <= p.nodes[f.inode].size && f.fdPos + count < 0x1_0000_0000)
    ensures stops <==> f.fdPos == 0x1_0000_0000 - 1
    ensures !stops ==> |Contents(p.View(), f.inode)| == p.nodes[f.inode].size && r == NextBytes(p.View(), f, count)
    ensures !stops ==> (r.None? <==> f.fdPos == p.nodes[f.inode].size && count > 0)
    ensures r.Some? ==>
              && |r.value| <= count && f.fdPos + |r.value| <= p.nodes[f.inode].size
              && (|r.value| == count || f.fdPos + |r.value| == p.nodes[f.inode].size)
              && forall k :: 0 <= k < |r.value| ==> r.value[k] == Contents(p.View(), f.inode)[f.fdPos + k]
    ensures g == f.(fdPos := f.fdPos + if r.Some? then |r.value| else 0)
  {
    ghost var v := p.View();
    var i := f.inode;
    ContentsLength(v, i);
    WrapsOnlyAtTheTop(f.fdPos, count, p.nodes[i].size);
    if f.fdPos <= p.nodes[i].size {
      NextBytesAre(v, f, count);
    }
    hide NextBytes, Wrap, Inv, Contents, FileOk, BlockOf;
    var size := count;
    if Wrap(f.fdPos + count) > p.nodes[i].size {
      size := Wrap(p.nodes[i].size - f.fdPos);
      if size == 0 {
        return f, None, false;
      }
    }
    var startIdx, endIdx := f.fdPos / BLOCK, Wrap(f.fdPos + size) / BLOCK;
    if !(startIdx < 139 && endIdx < 139) {
      return f, None, true;
    }
    var allBlocks := CollectBlocks(p, i, startIdx, endIdx);
    var buf := ReadBytes(p, i, f.fdPos, size, allBlocks);
    g, r, stops := f.(fdPos := f.fdPos + size), Some(buf), false;
  }

  /** A uint32_t after an addition or a subtraction. */
  function Wrap(x: int): nat {
    x % 0x1_0000_0000
  }

  lemma WrapsOnlyAtTheTop(pos: nat, count: nat, size: nat)
    requires size < MAX_DIRECT && count < 0x1_0000_0000
    requires pos == 0x1_0000_0000 - 1 || (pos <= size && pos + count < 0x1_0000_0000)
    ensures pos <= size ==> Wrap(pos + count) == pos + count && Wrap(size - pos) == size - pos && size / BLOCK < 12
    ensures pos <= size ==> Wrap(pos + (size - pos)) == size
    ensures pos > size ==> Wrap(size - pos) == size + 1 && pos / BLOCK >= 139
  {}

  /** The loop of file_read. */
  method ReadBytes(p: Partition, i: nat, from: nat, size: nat, allBlocks: seq<nat>) returns (buf: seq<byte>)
    requires p.Valid() && FileOk(p.View(), i) && |Contents(p.View(), i)| == p.nodes[i].size && from + size <= p.nodes[i].size
    requires |allBlocks| == 140 && i in p.nodes && |p.nodes[i].sectors| == 13
    requires (from + size) / BLOCK < 12
    requires forall k :: from / BLOCK <= k <= (from + size) / BLOCK ==> allBlocks[k] == p.nodes[i].sectors[k]
    ensures buf == Contents(p.View(), i)[from..from + size]
  {
    hide Inv, FileOk, Contents, BlockOf;
    ghost var text := Contents(p.View(), i);
    var pos, left := from, size;
    buf := [];
    while left > 0
      invariant 0 <= left && from <= pos && pos + left == from + size <= |text| && buf == text[from..pos]
      decreases left
    {
      var secOff := pos % BLOCK;
      var chunk := if left < BLOCK - secOff then left else BLOCK - secOff;
      ChunkPlace(pos, chunk, from, size);
      var bytes := ReadChunk(p, i, pos, chunk, allBlocks);
      SliceJoin(text, from, pos, pos + chunk);
      buf := buf + bytes;
      pos, left := pos + chunk, left - chunk;
    }
  }

  lemma SliceJoin(s: seq<byte>, a: nat, b: nat, c: nat)
    requires a <= b <= c <= |s|
    ensures s[a..b] + s[b..c] == s[a..c]
  {}

  /** One turn of the loop. */
  method ReadChunk(p: Partition, i: nat, pos: nat, chunk: nat, allBlocks: seq<nat>) returns (bytes: seq<byte>)
    requires p.Valid() && FileOk(p.View(), i) && |Contents(p.View(), i)| == p.nodes[i].size && pos + chunk <= p.nodes[i].size
    requires |allBlocks| == 140 && i in p.nodes && |p.nodes[i].sectors| == 13 && pos / BLOCK < 12 && allBlocks[pos / BLOCK] == p.nodes[i].sectors[pos / BLOCK]
    requires 0 < chunk <= BLOCK - pos % BLOCK
    ensures bytes == Contents(p.View(), i)[pos..pos + chunk]
  {
    var secIdx, secOff := pos / BLOCK, pos % BLOCK;
    assert pos == BLOCK * secIdx + secOff;
    ContentsChunk(p.View(), i, secIdx, secOff, chunk);
    hide Contents, FileOk;
    var ioBuf := p.ReadBlock(i, secIdx);
    bytes := ioBuf[secOff..secOff + chunk];
  }

  lemma ChunkPlace(pos: nat, chunk: nat, from: nat, size: nat)
    requires from <= pos && pos + chunk <= from + size && chunk > 0
    ensures pos == BLOCK * (pos / BLOCK) + pos % BLOCK && from / BLOCK <= pos / BLOCK <= (from + size) / BLOCK
  {}

  /** all_blocks: the addresses of the direct blocks from startIdx to endIdx. */
  method CollectBlocks(p: Partition, i: nat, startIdx: nat, endIdx: nat) returns (allBlocks: seq<nat>)
    requires i in p.nodes && |p.nodes[i].sectors| == 13 && startIdx <= endIdx < 12
    ensures |allBlocks| == 140 && forall k :: startIdx <= k <= endIdx ==> allBlocks[k] == p.nodes[i].sectors[k]
  {
    allBlocks := seq(140, _ => 0);
    if startIdx == endIdx {
      allBlocks := allBlocks[endIdx := p.nodes[i].sectors[endIdx]];
    } else {
      var blockIdx := startIdx;
      while blockIdx <= endIdx
        invariant startIdx <= blockIdx <= endIdx + 1 && |allBlocks| == 140
        invariant forall k :: startIdx <= k < blockIdx ==> allBlocks[k] == p.nodes[i].sectors[k]
      {
        allBlocks := allBlocks[blockIdx := p.nodes[i].sectors[blockIdx]];
        blockIdx := blockIdx + 1;
      }
    }
  }

  // ---------- file_write ----------

  /** The blocks that appending n bytes takes. */
  function Needed(n: Node, count: nat): (r: nat)
    requires |n.sectors| == 13
  {
    if BlockCount(n) == 0 then (n.size + count) / BLOCK + 1 else (n.size + count) / BLOCK - n.size / BLOCK
  }

  /** The loop that gives the file blocks from..to-1: none of them is there yet. When the blocks run out,
      those taken so far stay with the inode. */
  method Grow(p: Partition, i: nat, from: nat, to: nat) returns (ok: bool)
    requires p.Valid() && i in p.nodes && FirstBlocks(p.nodes[i], from) && from <= to <= 12 && p.diskBits == p.bits
    modifies p`bits, p`diskBits, p`nodes, p`owner, p`stopped
    ensures p.Valid() && Only(old(p.View()), p.View(), i) && p.diskBits == p.bits && i in p.nodes && i in old(p.nodes)
    ensures (ok <==> to - from <= FreeCount(old(p.bits))) && p.stopped == (old(p.stopped) || !ok)
    ensures ok ==> FirstBlocks(p.nodes[i], to) && FreeCount(p.bits) == FreeCount(old(p.bits)) - (to - from)
    ensures !ok ==> FreeCount(p.bits) == 0 && (FreeCount(old(p.bits)) == 0 ==> p.View() == old(p.View()))
    ensures p.nodes[i].size == old(p.nodes)[i].size
    ensures forall k :: 0 <= k < from ==> BlockOf(p.View(), i, k) == BlockOf(old(p.View()), i, k)
  {
    hide FreeCount, Inv, Only, BlockOf;
    ghost var v := p.View();
    var blockIdx := from;
    OnlySelf(v, i);
    while blockIdx < to
      invariant from <= blockIdx <= to && p.Valid() && i in p.nodes && Only(v, p.View(), i) && p.diskBits == p.bits
      invariant FirstBlocks(p.nodes[i], blockIdx) && p.nodes[i].size == v.nodes[i].size
      invariant forall k :: 0 <= k < from ==> BlockOf(p.View(), i, k) == BlockOf(v, i, k)
      invariant FreeCount(p.bits) == FreeCount(v.bits) - (blockIdx - from) && p.stopped == old(p.stopped)
      invariant blockIdx == from ==> p.View() == v
    {
      ok := GrowOne(p, v, i, blockIdx);
      if !ok {
        return;
      }
      blockIdx := blockIdx + 1;
    }
    ok := true;
  }

  lemma OnlySelf(v: Volume, i: nat)
    ensures Only(v, v, i)
  {
    forall j ensures SameElsewhere(v, v, i, j) {}
  }

  method GrowOne(p: Partition, ghost v: Volume, i: nat, k: nat) returns (ok: bool)
    requires p.Valid() && i in p.nodes && FirstBlocks(p.nodes[i], k) && k < 12 && p.diskBits == p.bits
    requires Only(v, p.View(), i)
    modifies p`bits, p`diskBits, p`nodes, p`owner, p`stopped
    ensures p.Valid() && i in p.nodes && i in old(p.nodes) && Only(v, p.View(), i) && p.diskBits == p.bits
    ensures (ok <==> FreeCount(old(p.bits)) > 0) && p.stopped == (old(p.stopped) || !ok)
    ensures !ok ==> p.View() == old(p.View())
    ensures p.nodes[i].size == old(p.nodes)[i].size
    ensures forall m :: 0 <= m < 13 && m != k ==> BlockOf(p.View(), i, m) == BlockOf(old(p.View()), i, m)
    ensures ok ==> FirstBlocks(p.nodes[i], k + 1) && FreeCount(p.bits) == FreeCount(old(p.bits)) - 1
  {
    assert p.dataStart > 0;
    hide BitmapSync, Inv;
    ghost var u := p.View();
    FreeCountZeroIff(p.bits);
    if FreeCount(p.bits) > 0 {
      TakeIsLocal(u, i, k, FirstFree(p.bits).value);
      TakeKeepsInv(u, i, k, FirstFree(p.bits).value);
    }
    assert p.nodes[i].sectors[k] == 0;
    var lba := p.BlockAllocFor(i, k);
    if lba == None {
      return false;
    }
    OnlyTransitive(v, u, p.View(), i);
    ok := true;
  }

  /** Writing a chunk right after the last byte, in a block that keeps what came before it, appends
      the chunk to the file. */
  lemma ChunkAppends(v: Volume, t: Volume, r: Volume, i: nat, buf: seq<byte>, chunk: seq<byte>)
    requires Inv(v) && i in v.nodes && |v.nodes[i].sectors| == 13 && v.nodes[i].size / BLOCK < 12
    requires forall k :: 0 <= k <= v.nodes[i].size / BLOCK ==> v.nodes[i].sectors[k] != 0
    requires |buf| == BLOCK && WrittenTo(v, t, i, v.nodes[i].size / BLOCK, buf)
    requires r == Resize(t, i, v.nodes[i].size + |chunk|) && v.nodes[i].size % BLOCK + |chunk| <= BLOCK
    requires var off := v.nodes[i].size % BLOCK;
             && off <= |BlockOf(v, i, v.nodes[i].size / BLOCK)| && buf[..off] == BlockOf(v, i, v.nodes[i].size / BLOCK)[..off]
             && buf[off..off + |chunk|] == chunk
    ensures Contents(r, i) == Contents(v, i) + chunk
  {
    var k, off := v.nodes[i].size / BLOCK, v.nodes[i].size % BLOCK;
    SizeAfter(v.nodes[i].size, |chunk|);
    ResizeIsLocal(t, i, v.nodes[i].size + |chunk|);
    assert BlockOf(r, i, k) == BlockOf(t, i, k);
    forall m: nat | m < k
      ensures BlockOf(r, i, m) == BlockOf(v, i, m)
    {
      assert BlockOf(t, i, m) == BlockOf(v, i, m);
    }
    hide Inv, Only, BlockOf, Text, Front, Upto, WrittenTo;
    UptoAppends(v, r, i, k, off, buf, chunk);
  }

  lemma UptoAppends(v: Volume, r: Volume, i: nat, k: nat, off: nat, buf: seq<byte>, chunk: seq<byte>)
    requires forall m: nat :: m < k ==> BlockOf(r, i, m) == BlockOf(v, i, m)
    requires BlockOf(r, i, k) == buf && |buf| == BLOCK && off <= |BlockOf(v, i, k)| && off + |chunk| <= BLOCK
    requires buf[..off] == BlockOf(v, i, k)[..off] && buf[off..off + |chunk|] == chunk
    ensures Upto(r, i, k, off + |chunk|) == Upto(v, i, k, off) + chunk
    ensures off + |chunk| == BLOCK ==> Upto(r, i, k + 1, 0) == Upto(v, i, k, off) + chunk
  {
    TextSame(v, r, i, k);
    BufferEnds(buf, off, chunk);
    TextStep(r, i, k);
    assert Front(BlockOf(r, i, k + 1), 0) == [];
  }

  lemma TextStep(v: Volume, i: nat, n: nat)
    ensures Text(v, i, n + 1) == Text(v, i, n) + BlockOf(v, i, n)
  {}

  lemma BufferEnds(buf: seq<byte>, off: nat, chunk: seq<byte>)
    requires off + |chunk| <= |buf| && buf[off..off + |chunk|] == chunk
    ensures buf[..off + |chunk|] == buf[..off] + chunk && (off + |chunk| == |buf| ==> buf == buf[..off] + chunk)
  {}

  lemma SizeAfter(size: nat, c: nat)
    requires size % BLOCK + c <= BLOCK
    ensures size == BLOCK * (size / BLOCK) + size % BLOCK
    ensures size % BLOCK + c < BLOCK ==> (size + c) / BLOCK == size / BLOCK && (size + c) % BLOCK == size % BLOCK + c
    ensures size % BLOCK + c == BLOCK ==> (size + c) / BLOCK == size / BLOCK + 1 && (size + c) % BLOCK == 0
  {}

  /** One turn of the loop of file_write. The block is read first only for the first chunk; the others
      start at the beginning of a block. */
  method WriteChunk(p: Partition, i: nat, chunk: seq<byte>, first: bool, count: nat)
    requires p.Valid() && i in p.nodes && FirstBlocks(p.nodes[i], count) && p.nodes[i].size / BLOCK < count
    requires |chunk| > 0 && p.nodes[i].size % BLOCK + |chunk| <= BLOCK && (!first ==> p.nodes[i].size % BLOCK == 0)
    modifies p`blocks, p`nodes
    ensures p.Valid() && i in p.nodes && i in old(p.nodes) && Only(old(p.View()), p.View(), i)
    ensures p.diskBits == old(p.diskBits) && p.bits == old(p.bits)
    ensures FirstBlocks(p.nodes[i], count) && p.nodes[i].size == old(p.nodes)[i].size + |chunk|
    ensures Contents(p.View(), i) == Contents(old(p.View()), i) + chunk
  {
    hide Only, BlockOf, SameNode, SlotOk;
    ghost var v := p.View();
    var secIdx, secOff := p.nodes[i].size / BLOCK, p.nodes[i].size % BLOCK;
    BlockSize(v, i, secIdx);
    hide Contents, Inv;
    var ioBuf := Zeros(BLOCK);
    if first {
      ioBuf := p.ReadBlock(i, secIdx);
    }
    ioBuf := Patch(ioBuf, secOff, chunk);
    p.WriteBlock(i, secIdx, ioBuf);
    ghost var t := p.View();
    p.SetSize(i, p.nodes[i].size + |chunk|);
    ChunkAppends(v, t, p.View(), i, ioBuf, chunk);
    ResizeIsLocal(t, i, v.nodes[i].size + |chunk|);
    OnlyTransitive(v, t, p.View(), i);
  }

  /** The loop of file_write: all the data goes after the last byte. */
  method WriteBytes(p: Partition, i: nat, data: seq<byte>, allBlocks: seq<nat>, count: nat)
    requires p.Valid() && i in p.nodes && FirstBlocks(p.nodes[i], count) && (p.nodes[i].size + |data|) / BLOCK < count
    requires |allBlocks| == 140 && forall k :: p.nodes[i].size / BLOCK <= k < count ==> allBlocks[k] == p.nodes[i].sectors[k]
    modifies p`blocks, p`nodes
    ensures p.Valid() && i in p.nodes && i in old(p.nodes) && Only(old(p.View()), p.View(), i)
    ensures p.diskBits == old(p.diskBits) && p.bits == old(p.bits)
    ensures FirstBlocks(p.nodes[i], count) && p.nodes[i].size == old(p.nodes)[i].size + |data|
    ensures Contents(p.View(), i) == Contents(old(p.View()), i) + data
  {
    hide BlockOf, Upto;
    ghost var v := p.View();
    OnlySelf(v, i);
    hide Contents, Inv, Only, FirstBlocks;
    var written := 0;
    assert data[..0] == [];
    while written < |data|
      invariant 0 <= written <= |data| && p.Valid() && i in p.nodes && Only(v, p.View(), i) && FirstBlocks(p.nodes[i], count)
      invariant p.nodes[i].size == v.nodes[i].size + written && (0 < written < |data| ==> p.nodes[i].size % BLOCK == 0)
      invariant Contents(p.View(), i) == Contents(v, i) + data[..written]
    {
      ghost var u := p.View();
      var left := |data| - written;
      var secLeft := BLOCK - p.nodes[i].size % BLOCK;
      var chunkSize := if left < secLeft then left else secLeft;
      SizeAfter(p.nodes[i].size, chunkSize);
      StillInRange(p.nodes[i].size, v.nodes[i].size + |data|);
      WriteChunk(p, i, data[written..written + chunkSize], written == 0, count);
      OnlyTransitive(v, u, p.View(), i);
      DataJoin(data, written, written + chunkSize);
      AppendJoin(Contents(v, i), data[..written], data[written..written + chunkSize]);
      written := written + chunkSize;
    }
    assert data[..written] == data;
  }

  lemma StillInRange(a: nat, b: nat)
    requires a <= b
    ensures a / BLOCK <= b / BLOCK
  {}

  lemma DataJoin(s: seq<byte>, b: nat, c: nat)
    requires b <= c <= |s|
    ensures s[..b] + s[b..c] == s[..c]
  {}

  lemma AppendJoin(a: seq<byte>, b: seq<byte>, c: seq<byte>)
    ensures a + b + c == a + (b + c)
  {}

  /** A file that has never been written gets its first block, which is not block 0 of the data area. */
  method FirstBlock(p: Partition, i: nat) returns (ok: bool)
    requires p.Valid() && FileOk(p.View(), i) && p.diskBits == p.bits && p.bits != [] && p.bits[0]
    modifies p`bits, p`diskBits, p`nodes, p`owner, p`stopped
    ensures p.Valid() && p.diskBits == p.bits && i in p.nodes && i in old(p.nodes) && Only(old(p.View()), p.View(), i)
    ensures !ok <==> old(p.nodes)[i].sectors[0] == 0 && FreeCount(old(p.bits)) == 0
    ensures (!ok ==> p.View() == old(p.View())) && p.stopped == (old(p.stopped) || !ok)
    ensures ok ==> FirstBlocks(p.nodes[i], p.nodes[i].size / BLOCK + 1) && p.nodes[i].size == old(p.nodes)[i].size
    ensures ok ==> Contents(p.View(), i) == Contents(old(p.View()), i)
    ensures ok ==> FreeCount(p.bits) + p.nodes[i].size / BLOCK + 1 == FreeCount(old(p.bits)) + BlockCount(old(p.nodes)[i])
  {
    ghost var v := p.View();
    OnlySelf(v, i);
    ok := true;
    if p.nodes[i].sectors[0] == 0 {
      ok := Grow(p, i, 0, 1);
      if ok {
        FirstIsTaken(v, p.View(), i);
        assert p.nodes[i].sectors[0] - p.dataStart != 0;
        SameContents(v, p.View(), i);
      }
    }
  }

  /** A block that is in use stays with whoever uses it. */
  lemma FirstIsTaken(v: Volume, r: Volume, i: nat)
    requires Inv(v) && Inv(r) && Only(v, r, i) && v.bits != [] && v.bits[0] && i in v.nodes && |v.nodes[i].sectors| == 13
    requires (forall k :: 0 <= k < 13 ==> v.nodes[i].sectors[k] == 0) && i in r.nodes && |r.nodes[i].sectors| == 13
    ensures r.nodes[i].sectors[0] != 0 ==> r.nodes[i].sectors[0] - r.dataStart != 0
  {
    assert BitOk(v, 0) && OwnerOk(v, 0) && BitOk(r, 0) && OwnerOk(r, 0) && SlotOk(r, i, 0);
    if 0 in v.owner {
      var o := v.owner[0];
      assert NodeOk(v, o.inode);
      assert SameElsewhere(v, r, i, o.inode);
      assert SlotOk(r, o.inode, o.slot);
    }
  }

  /** The offset of the last byte, i_size - 1 on 32 bits. */
  function LastByte(size: nat): (pos: nat)
    ensures 0 < size < 0x1_0000_0000 ==> pos == size - 1
    ensures size == 0 ==> pos == 0x1_0000_0000 - 1
  {
    (size + 0x1_0000_0000 - 1) % 0x1_0000_0000
  }

  /** What file_write promises: -1 and no change, or the data appended to the file and nothing else. */
  ghost predicate Appended(v: Volume, r: Volume, i: nat, data: seq<byte>)
    requires i in v.nodes && i in r.nodes
  {
    && Inv(r) && Synced(r) && Only(v, r, i) && FileOk(r, i) && r.nodes[i].sectors[0] != 0
    && r.nodes[i].size == v.nodes[i].size + |data| && Contents(r, i) == Contents(v, i) + data
  }

  /** file_write. It returns -1 exactly when the blocks do not suffice: a kernel built with ASSERTs has
      stopped in bitmap_scan then, and in one built without them the inode keeps the blocks it got. fd_pos
      ends at the old last byte, on 32 bits. */
  method FileWrite(p: Partition, f: File, data: seq<byte>) returns (g: File, r: Option<nat>)
    requires p.Valid() && Synced(p.View()) && f.inode < 256 && FileOk(p.View(), f.inode) && p.nodes[f.inode].size + |data| < MAX_DIRECT
    requires p.bits != [] && p.bits[0]
    modifies p`blocks, p`bits, p`diskBits, p`nodes, p`table, p`owner, p`stopped
    ensures p.Valid() && f.inode in p.nodes && f.inode in old(p.nodes) && |old(p.nodes)[f.inode].sectors| == 13
    ensures r == None <==> Needed(old(p.nodes)[f.inode], |data|) > FreeCount(old(p.bits))
    ensures p.stopped == (old(p.stopped) || r == None)
    ensures r == None ==> g == f && Only(old(p.View()), p.View(), f.inode) && FreeCount(p.bits) == 0 && p.diskBits == p.bits
    ensures r == None && old(p.nodes)[f.inode].sectors[0] == 0 && FreeCount(old(p.bits)) == 0 ==> p.View() == old(p.View())
    ensures r != None ==> r == Some(|data|) && Appended(old(p.View()), p.View(), f.inode, data)
    ensures r != None ==> g == f.(fdPos := LastByte(old(p.nodes)[f.inode].size))
  {
    hide Only, Inv, Appended, Contents, BlockOf, FreeCount, Fit;
    var i := f.inode;
    ghost var v := p.View();
    var size := p.nodes[i].size;
    var ok := FirstBlock(p, i);
    if !ok {
      return f, None;
    }
    var has, will := size / BLOCK + 1, (size + |data|) / BLOCK + 1;
    StillInRange(size, size + |data|);
    ghost var t := p.View();
    if will > has {
      assert p.nodes[i].sectors[has - 1] != 0;
      ok := Grow(p, i, has, will);
      if !ok {
        OnlyTransitive(v, t, p.View(), i);
        return f, None;
      }
    } else {
      OnlySelf(t, i);
    }
    ghost var u := p.View();
    SameContents(t, u, i);
    var allBlocks := CollectBlocks(p, i, has - 1, will - 1);
    WriteBytes(p, i, data, allBlocks, will);
    ghost var w := p.View();
    p.InodeSync(i);
    WriteEnds(v, t, u, w, i, data);
    g, r := f.(fdPos := LastByte(size)), Some(|data|);
  }

  /** The bytes up to the size do not depend on blocks that come after them. */
  lemma SameContents(v: Volume, r: Volume, i: nat)
    requires i in v.nodes && i in r.nodes && r.nodes[i].size == v.nodes[i].size
    requires forall k: nat :: k < v.nodes[i].size / BLOCK ==> BlockOf(r, i, k) == BlockOf(v, i, k)
    requires v.nodes[i].size % BLOCK == 0 || BlockOf(r, i, v.nodes[i].size / BLOCK) == BlockOf(v, i, v.nodes[i].size / BLOCK)
    ensures Contents(r, i) == Contents(v, i)
  {
    TextSame(v, r, i, v.nodes[i].size / BLOCK);
  }

  /** The states of file_write put together: v at the start, t with the first block, u with all blocks,
      w with the data, and the inode written back. */
  lemma WriteEnds(v: Volume, t: Volume, u: Volume, w: Volume, i: nat, data: seq<byte>)
    requires Synced(v) && i in v.nodes && i in t.nodes && i in u.nodes && i in w.nodes && Inv(w)
    requires Only(v, t, i) && Only(t, u, i) && Only(u, w, i) && w.diskBits == w.bits
    requires w.nodes[i].size == v.nodes[i].size + |data| < MAX_DIRECT && FirstBlocks(w.nodes[i], w.nodes[i].size / BLOCK + 1)
    requires Contents(t, i) == Contents(v, i) && Contents(u, i) == Contents(t, i) && Contents(w, i) == Contents(u, i) + data
    ensures Appended(v, SyncNode(w, i), i, data)
  {
    var r := SyncNode(w, i);
    SyncNodeKeepsInv(w, i);
    SyncNodeIsLocal(w, i);
    OnlyTransitive(v, t, u, i);
    OnlyTransitive(v, u, w, i);
    OnlyTransitive(v, w, r, i);
    SyncedAgain(v, r, i);
    SameContents(w, r, i);
  }

  // ---------- Writing, then reading ----------

  /** What has been written can be read back from the beginning of the file. */
  lemma WriteThenRead(v: Volume, r: Volume, i: nat, data: seq<byte>)
    requires Inv(v) && FileOk(v, i) && i in r.nodes && Appended(v, r, i, data)
    ensures |Contents(r, i)| == r.nodes[i].size && |Contents(v, i)| == v.nodes[i].size
    ensures r.nodes[i].size > 0 ==> NextBytes(r, File(0, i), r.nodes[i].size) == Some(Contents(v, i) + data)
    ensures data != [] ==> NextBytes(r, File(v.nodes[i].size, i), |data|) == Some(data)
  {
    ContentsLength(v, i);
    ContentsLength(r, i);
    TailsOf(Contents(v, i), data);
    hide Contents, Inv;
  }

  lemma TailsOf(a: seq<byte>, b: seq<byte>)
    ensures (a + b)[0..|a + b|] == a + b && (a + b)[|a|..|a + b|] == b
    ensures a != [] ==> (a + b)[|a| - 1..|a + b|] == [a[|a| - 1]] + b
  {}

  /** fd_pos after file_write points at the last old byte, so a read without a seek starts with that
      byte. Exactly when the file was empty there is no such byte: fd_pos is 2^32 - 1, beyond any
      file, and the ASSERT on block numbers in file_read fails. */
  lemma ReadAfterWriteIff(v: Volume, r: Volume, i: nat, data: seq<byte>)
    requires Inv(v) && FileOk(v, i) && i in r.nodes && Appended(v, r, i, data)
    ensures var pos := LastByte(v.nodes[i].size);
            && (pos <= r.nodes[i].size <==> v.nodes[i].size > 0)
            && (v.nodes[i].size == 0 ==> pos >= 139 * BLOCK)
            && (v.nodes[i].size > 0 ==>
                  && pos <= r.nodes[i].size == |Contents(r, i)| && v.nodes[i].size == |Contents(v, i)|
                  && NextBytes(r, File(pos, i), 1 + |data|) == Some([Contents(v, i)[v.nodes[i].size - 1]] + data))
  {
    ContentsLength(v, i);
    ContentsLength(r, i);
    hide Contents, Inv, LastByte;
    if v.nodes[i].size > 0 {
      TailsOf(Contents(v, i), data);
    }
  }
}
