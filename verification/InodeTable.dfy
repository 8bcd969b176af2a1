/**
  The inode table on disk (fs/inode.c:22-75, 91-119, 149-166): 76-byte inodes packed into 512-byte
  sectors, some of them across a sector boundary.
 */
module InodeTable {
  import opened Outcomes
  import opened Bytes

  const SECTOR := 512
  const INODE_SIZE := 76             // sizeof(struct inode): 4 + 4 + 4 + 4 + 13 * 4 + 8
  const MAX_INODES := 4096

  /** A struct inode; `i_open_cnts`, `write_deny` and the list tag mean something in memory only. */
  datatype Inode = Inode(iNo: nat, size: nat, openCnts: nat, writeDeny: bool, sectors: seq<nat>)

  predicate WellFormed(n: Inode) {
    && n.iNo < 0x1_0000_0000 && n.size < 0x1_0000_0000 && |n.sectors| == 13
    && forall k :: 0 <= k < 13 ==> n.sectors[k] < 0x1_0000_0000
  }

  /** pure_inode: the members that only memory needs are cleared. */
  function Pure(n: Inode): Inode {
    n.(openCnts := 0, writeDeny := false)
  }

  // ---------- The bytes of an inode ----------

  function Words(s: seq<nat>): (r: seq<byte>)
    ensures |r| == 4 * |s|
  {
    if s == [] then [] else Word(s[0]) + Words(s[1..])
  }

  lemma {:induction false} WordsAt(s: seq<nat>, k: nat)
    requires k < |s|
    ensures Words(s)[4 * k..4 * k + 4] == Word(s[k])
  {
    if k > 0 {
      WordsAt(s[1..], k - 1);
      assert Words(s)[4 * k..4 * k + 4] == Words(s[1..])[4 * (k - 1)..4 * (k - 1) + 4];
    }
  }

  function Encode(n: Inode): (r: seq<byte>)
    requires |n.sectors| == 13
    ensures |r| == INODE_SIZE
  {
    Word(n.iNo) + Word(n.size) + Word(n.openCnts) + Word(if n.writeDeny then 1 else 0) + Words(n.sectors) + Zeros(8)
  }

  function Decode(b: seq<byte>): Inode
    requires |b| == INODE_SIZE
  {
    Inode(WordAt(b, 0), WordAt(b, 4), WordAt(b, 8), b[12] != 0, seq(13, k requires 0 <= k < 13 => WordAt(b, 16 + 4 * k)))
  }

  lemma RoundTrip(n: Inode)
    requires WellFormed(n)
    ensures Decode(Encode(Pure(n))) == Pure(n)
  {
    var b := Encode(Pure(n));
    assert b[0..4] == Word(n.iNo) && b[4..8] == Word(n.size) && b[8..12] == Word(0) && b[12] == 0;
    WordRoundTrip(n.iNo, b, 0);
    WordRoundTrip(n.size, b, 4);
    WordRoundTrip(0, b, 8);
    forall k | 0 <= k < 13
      ensures WordAt(b, 16 + 4 * k) == n.sectors[k]
    {
      WordsAt(n.sectors, k);
      assert b[16 + 4 * k..16 + 4 * k + 4] == Words(n.sectors)[4 * k..4 * k + 4];
      WordRoundTrip(n.sectors[k], b, 16 + 4 * k);
    }
  }

  // ---------- Where an inode lies ----------

  /** inode_locate, relative to the first sector of the table. */
  datatype Position = Position(twoSec: bool, sec: nat, off: nat)

  function Locate(inodeNo: nat): Position {
    var off := inodeNo * INODE_SIZE % SECTOR;
    Position(SECTOR - off < INODE_SIZE, inodeNo * INODE_SIZE / SECTOR, off)
  }

  /** The table: 4096 inodes fill 608 sectors exactly. */
  predicate Table(t: seq<seq<byte>>) {
    |t| == MAX_INODES * INODE_SIZE / SECTOR && forall j :: 0 <= j < |t| ==> |t[j]| == SECTOR
  }

  function ByteAt(t: seq<seq<byte>>, pos: nat): byte
    requires Table(t) && pos < MAX_INODES * INODE_SIZE
  {
    t[pos / SECTOR][pos % SECTOR]
  }

  /** The 76 bytes of inode number i. */
  function Slot(t: seq<seq<byte>>, i: nat): (r: seq<byte>)
    requires Table(t) && i < MAX_INODES
    ensures |r| == INODE_SIZE
  {
    seq<byte>(INODE_SIZE, k requires 0 <= k < INODE_SIZE => ByteAt(t, i * INODE_SIZE + k))
  }

  lemma LocateFits(i: nat)
    requires i < MAX_INODES
    ensures var p := Locate(i);
            && p.sec * SECTOR + p.off == i * INODE_SIZE && p.off < SECTOR
            && InTable(p)
  {
    assert i * INODE_SIZE + INODE_SIZE <= 608 * SECTOR;
  }

  // ---------- Reading and writing ----------

  /** inode_open without the cache: one or two sectors are read and the inode is copied out. */
  method ReadInode(t: seq<seq<byte>>, i: nat) returns (n: Inode)
    requires Table(t) && i < MAX_INODES
    ensures n == Decode(Slot(t, i))
  {
    var p := Locate(i);
    LocateFits(i);
    var buf := if p.twoSec then t[p.sec] + t[p.sec + 1] else t[p.sec];
    var bytes := buf[p.off..p.off + INODE_SIZE];
    forall k | 0 <= k < INODE_SIZE
      ensures bytes[k] == Slot(t, i)[k]
    {
      SlotByte(t, i, k);
    }
    assert bytes == Slot(t, i);
    n := Decode(bytes);
  }

  lemma SlotByte(t: seq<seq<byte>>, i: nat, k: nat)
    requires Table(t) && i < MAX_INODES && k < INODE_SIZE
    ensures InTable(Locate(i))
    ensures var p := Locate(i);
            Slot(t, i)[k] == if p.off + k < SECTOR then t[p.sec][p.off + k] else t[p.sec + 1][p.off + k - SECTOR]
  {
    LocateFits(i);
    var p := Locate(i);
    BytePlace(p.sec, p.off + k);
    assert i * INODE_SIZE + k == p.sec * SECTOR + (p.off + k);
    assert Slot(t, i)[k] == ByteAt(t, i * INODE_SIZE + k);
  }

  lemma BytePlace(sec: nat, off: nat)
    requires off < 2 * SECTOR
    ensures (sec * SECTOR + off) / SECTOR == (if off < SECTOR then sec else sec + 1)
    ensures (sec * SECTOR + off) % SECTOR == (if off < SECTOR then off else off - SECTOR)
  {}

  predicate InTable(p: Position) {
    && p.off < SECTOR && p.sec < 608 && (p.twoSec ==> p.sec + 1 < 608)
    && p.off + INODE_SIZE <= if p.twoSec then 2 * SECTOR else SECTOR
  }

  /** The read, patch and write back that inode_sync and inode_delete share. */
  function Spliced(t: seq<seq<byte>>, p: Position, data: seq<byte>): (r: seq<seq<byte>>)
    requires Table(t) && InTable(p) && |data| == INODE_SIZE
    ensures Table(r)
  {
    if p.twoSec then
      var buf := Patch(t[p.sec] + t[p.sec + 1], p.off, data);
      t[p.sec := buf[..SECTOR]][p.sec + 1 := buf[SECTOR..]]
    else t[p.sec := Patch(t[p.sec], p.off, data)]
  }

  function Stored(t: seq<seq<byte>>, i: nat, data: seq<byte>): (r: seq<seq<byte>>)
    requires Table(t) && i < MAX_INODES && |data| == INODE_SIZE
    ensures Table(r)
  {
    LocateFits(i);
    Spliced(t, Locate(i), data)
  }

  lemma SplicedAt(t: seq<seq<byte>>, p: Position, data: seq<byte>, q: nat, o: nat)
    requires Table(t) && InTable(p) && |data| == INODE_SIZE && q < 608 && o < SECTOR
    ensures var at := (q - p.sec) * SECTOR + o - p.off;
            Spliced(t, p, data)[q][o] == if 0 <= at < INODE_SIZE then data[at] else t[q][o]
  {
    var at := (q - p.sec) * SECTOR + o - p.off;
    if q == p.sec {
      assert at == o - p.off;
    } else if q == p.sec + 1 {
      assert at == SECTOR + o - p.off;
    } else if q < p.sec {
      assert at < 0;
    } else {
      assert at >= INODE_SIZE;
    }
  }

  lemma StoredByte(t: seq<seq<byte>>, i: nat, data: seq<byte>, pos: nat)
    requires Table(t) && i < MAX_INODES && |data| == INODE_SIZE && pos < MAX_INODES * INODE_SIZE
    ensures ByteAt(Stored(t, i, data), pos) ==
            if i * INODE_SIZE <= pos < i * INODE_SIZE + INODE_SIZE then data[pos - i * INODE_SIZE] else ByteAt(t, pos)
  {
    LocateFits(i);
    var p, q, o := Locate(i), pos / SECTOR, pos % SECTOR;
    hide Locate, Spliced;
    assert pos == q * SECTOR + o && q < 608;
    SplicedAt(t, p, data, q, o);
    assert (q - p.sec) * SECTOR + o - p.off == pos - i * INODE_SIZE;
  }

  lemma OtherSlot(i: nat, j: nat, k: nat)
    requires i != j && k < INODE_SIZE
    ensures !(i * INODE_SIZE <= j * INODE_SIZE + k < i * INODE_SIZE + INODE_SIZE)
  {}

  /** Writing one inode leaves the other 4095 alone, whether or not it lies across two sectors. */
  lemma StoredSlot(t: seq<seq<byte>>, i: nat, data: seq<byte>, j: nat)
    requires Table(t) && i < MAX_INODES && j < MAX_INODES && |data| == INODE_SIZE
    ensures Slot(Stored(t, i, data), j) == if j == i then data else Slot(t, j)
  {
    hide Locate, Stored, ByteAt;
    forall k | 0 <= k < INODE_SIZE
      ensures Slot(Stored(t, i, data), j)[k] == if j == i then data[k] else Slot(t, j)[k]
    {
      StoredByte(t, i, data, j * INODE_SIZE + k);
      if j != i {
        OtherSlot(i, j, k);
      }
    }
  }

  /** inode_sync. The inode number passes through a uint8_t. The slot then says what the inode does, but
      for the members that only memory needs, and the other 4095 are as before. */
  method InodeSync(t: seq<seq<byte>>, n: Inode) returns (r: seq<seq<byte>>)
    requires Table(t) && WellFormed(n)
    ensures Table(r) && r == Stored(t, n.iNo % 256, Encode(Pure(n)))
    ensures var m := Decode(Slot(r, n.iNo % 256));
            m.iNo == n.iNo && m.size == n.size && m.sectors == n.sectors && m.openCnts == 0 && !m.writeDeny
    ensures forall j :: 0 <= j < MAX_INODES && j != n.iNo % 256 ==> Slot(r, j) == Slot(t, j)
  {
    SyncedSlot(t, n);
    hide Encode, Decode, Slot;
    var inodeNo := n.iNo % 256;
    var p := Locate(inodeNo);
    LocateFits(inodeNo);
    if p.twoSec {
      var buf := t[p.sec] + t[p.sec + 1];
      buf := Patch(buf, p.off, Encode(Pure(n)));
      r := t[p.sec := buf[..SECTOR]];
      r := r[p.sec + 1 := buf[SECTOR..]];
    } else {
      r := t[p.sec := Patch(t[p.sec], p.off, Encode(Pure(n)))];
    }
  }

  lemma SyncedSlot(t: seq<seq<byte>>, n: Inode)
    requires Table(t) && WellFormed(n)
    ensures var r := Stored(t, n.iNo % 256, Encode(Pure(n)));
            && (forall j :: 0 <= j < MAX_INODES && j != n.iNo % 256 ==> Slot(r, j) == Slot(t, j))
            && var m := Decode(Slot(r, n.iNo % 256));
            m.iNo == n.iNo && m.size == n.size && m.sectors == n.sectors && m.openCnts == 0 && !m.writeDeny
  {
    hide Locate, Stored, ByteAt, Decode, Encode, Slot;
    RoundTrip(n);
    var r := Stored(t, n.iNo % 256, Encode(Pure(n)));
    forall j: nat | j < MAX_INODES
      ensures Slot(r, j) == if j == n.iNo % 256 then Encode(Pure(n)) else Slot(t, j)
    {
      StoredSlot(t, n.iNo % 256, Encode(Pure(n)), j);
    }
  }

  /** Where inode i lies, and where its members lie in its 76 bytes. */
  lemma InodeLayout(t: seq<seq<byte>>, i: nat)
    requires Table(t) && i < MAX_INODES
    ensures forall k :: 0 <= k < 76 ==> 0 <= (i * 76 + k) / 512 < |t| && Slot(t, i)[k] == t[(i * 76 + k) / 512][(i * 76 + k) % 512]
    ensures var b, n := Slot(t, i), Decode(Slot(t, i));
            && n.iNo == WordAt(b, 0) && n.size == WordAt(b, 4) && |n.sectors| == 13
            && forall k :: 0 <= k < 13 ==> n.sectors[k] == WordAt(b, 16 + 4 * k)
  {
    hide WordAt;
    forall k | 0 <= k < 76
      ensures 0 <= (i * 76 + k) / 512 < |t| && Slot(t, i)[k] == t[(i * 76 + k) / 512][(i * 76 + k) % 512]
    {
      assert 0 <= i * 76 + k < 608 * 512;
    }
  }

  /** inode_delete. */
  method InodeDelete(t: seq<seq<byte>>, i: nat) returns (r: seq<seq<byte>>)
    requires Table(t) && i < MAX_INODES
    ensures Table(r) && Slot(r, i) == Zeros(INODE_SIZE)
    ensures forall j :: 0 <= j < MAX_INODES && j != i ==> Slot(r, j) == Slot(t, j)
  {
    r := Stored(t, i, Zeros(INODE_SIZE));
    forall j: nat | j < MAX_INODES
      ensures Slot(r, j) == if j == i then Zeros(INODE_SIZE) else Slot(t, j)
    {
      StoredSlot(t, i, Zeros(INODE_SIZE), j);
    }
  }

  /** What inode_sync wrote, an uncached inode_open reads back, up to the members that are reset; and
      every other inode still reads as before. */
  lemma SyncThenOpen(t: seq<seq<byte>>, n: Inode, j: nat)
    requires Table(t) && WellFormed(n) && n.iNo < 256 && j < MAX_INODES
    ensures var m := Decode(Slot(Stored(t, n.iNo % 256, Encode(Pure(n))), j));
            if j == n.iNo then m.iNo == n.iNo && m.size == n.size && m.sectors == n.sectors && m.openCnts == 0 && !m.writeDeny
            else m == Decode(Slot(t, j))
  {
    hide Locate, Stored, ByteAt, Decode, Encode;
    StoredSlot(t, n.iNo, Encode(Pure(n)), j);
    RoundTrip(n);
  }

  /** Exactly which inodes survive inode_sync: those numbered below 256, and those whose slot held
      the same bytes already. A larger number overwrites the inode with its low eight bits. */
  lemma SyncReachesItsSlotIff(t: seq<seq<byte>>, n: Inode)
    requires Table(t) && WellFormed(n) && n.iNo < MAX_INODES
    ensures var r := Stored(t, n.iNo % 256, Encode(Pure(n)));
            && (Slot(r, n.iNo) == Encode(Pure(n)) <==> n.iNo < 256 || Slot(t, n.iNo) == Encode(Pure(n)))
            && Slot(r, n.iNo % 256) == Encode(Pure(n))
  {
    StoredSlot(t, n.iNo % 256, Encode(Pure(n)), n.iNo);
    StoredSlot(t, n.iNo % 256, Encode(Pure(n)), n.iNo % 256);
  }
}
