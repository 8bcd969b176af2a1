/**
  The list of open inodes (fs/inode.c:78-145, fs/file.c:147-165): one object for each inode number, shared by all who have
  it open, with a count of them. `handles` is the multiset of the numbers that are open, one for each
  inode_open not yet matched by inode_close; only the proofs look at it.
 */
module InodeCache {
  import opened Outcomes
  import opened Bytes
  import opened InodeTable

  /** The position in the list of the object with number i. */
  function Find(open: seq<Inode>, i: nat): (r: Option<nat>)
    ensures r.Some? ==> r.value < |open| && open[r.value].iNo == i && forall k :: 0 <= k < r.value ==> open[k].iNo != i
    ensures r.None? ==> forall k :: 0 <= k < |open| ==> open[k].iNo != i
  {
    if open == [] then None
    else if open[0].iNo == i then Some(0)
    else
      match Find(open[1..], i)
      case None => assert forall k :: 0 < k < |open| ==> open[k] == open[1..][k - 1]; None
      case Some(k) => assert forall j :: 0 < j < k + 1 ==> open[j] == open[1..][j - 1]; Some(k + 1)
  }

  /** The object with number i. */
  function Lookup(open: seq<Inode>, i: nat): Option<Inode> {
    match Find(open, i)
    case None => None
    case Some(k) => Some(open[k])
  }

  predicate Distinct(open: seq<Inode>) {
    forall j, k :: 0 <= j < k < |open| ==> open[j].iNo != open[k].iNo
  }

  /** The object with number i has as many users as there are handles, and exists exactly while there
      are any. */
  predicate CountOk(open: seq<Inode>, handles: multiset<nat>, i: nat) {
    match Lookup(open, i)
    case None => handles[i] == 0
    case Some(n) => n.openCnts == handles[i] && handles[i] > 0
  }

  /** At most one object for each number, each with the right count. */
  ghost predicate Counted(open: seq<Inode>, handles: multiset<nat>) {
    Distinct(open) && forall i: nat {:trigger CountOk(open, handles, i)} :: CountOk(open, handles, i)
  }

  lemma FindIs(open: seq<Inode>, k: nat)
    requires Distinct(open) && k < |open|
    ensures Find(open, open[k].iNo) == Some(k)
  {}

  lemma LookupUpdate(open: seq<Inode>, k: nat, n: Inode, j: nat)
    requires Distinct(open) && k < |open| && n.iNo == open[k].iNo
    ensures Distinct(open[k := n]) && Lookup(open[k := n], j) == if j == n.iNo then Some(n) else Lookup(open, j)
  {
    var r := open[k := n];
    if Find(open, j).Some? {
      FindIs(r, Find(open, j).value);
      FindIs(r, k);
    }
  }

  lemma LookupPush(open: seq<Inode>, n: Inode, j: nat)
    requires Distinct(open) && Lookup(open, n.iNo).None?
    ensures Distinct([n] + open) && Lookup([n] + open, j) == if j == n.iNo then Some(n) else Lookup(open, j)
  {
    assert ([n] + open)[1..] == open;
  }

  /** The list without its k-th object. */
  function Removed(open: seq<Inode>, k: nat): (r: seq<Inode>)
    requires k < |open|
    ensures |r| == |open| - 1 && forall m :: 0 <= m < |r| ==> r[m] == open[if m < k then m else m + 1]
  {
    open[..k] + open[k + 1..]
  }

  lemma RemovedDistinct(open: seq<Inode>, k: nat)
    requires Distinct(open) && k < |open|
    ensures Distinct(Removed(open, k))
  {
    hide Removed;
  }

  lemma LookupRemove(open: seq<Inode>, k: nat, j: nat)
    requires Distinct(open) && k < |open|
    ensures Distinct(Removed(open, k))
    ensures Lookup(Removed(open, k), j) == if j == open[k].iNo then None else Lookup(open, j)
  {
    RemovedDistinct(open, k);
    hide Removed;
    match Find(open, j)
    case None => RemovedNone(open, k, j);
    case Some(m) =>
      if m == k {
        RemovedNone(open, k, j);
      } else {
        FindIs(Removed(open, k), if m < k then m else m - 1);
      }
  }

  lemma RemovedNone(open: seq<Inode>, k: nat, j: nat)
    requires k < |open| && forall m :: 0 <= m < |open| && m != k ==> open[m].iNo != j
    ensures Find(Removed(open, k), j).None?
  {
    hide Removed;
  }

  /** inode_open: the object found has one more user, or a new one comes from the disk to the front. */
  function Opened(open: seq<Inode>, t: seq<seq<byte>>, i: nat): seq<Inode>
    requires Table(t) && i < MAX_INODES
  {
    match Find(open, i)
    case Some(k) => open[k := open[k].(openCnts := open[k].openCnts + 1)]
    case None => [Decode(Slot(t, i)).(openCnts := 1)] + open
  }

  /** inode_close: one user less; the last one takes the object off the list and frees it. */
  function Closed(open: seq<Inode>, i: nat): seq<Inode>
    requires Lookup(open, i).Some? && Lookup(open, i).value.openCnts > 0
  {
    var k := Find(open, i).value;
    if open[k].openCnts == 1 then Removed(open, k) else open[k := open[k].(openCnts := open[k].openCnts - 1)]
  }

  /** The inode's slot on disk holds the inode: it has been written and not deleted. */
  predicate OnDisk(t: seq<seq<byte>>, i: nat)
    requires Table(t) && i < MAX_INODES
  {
    Decode(Slot(t, i)).iNo == i
  }

  /** Opening inode i gives its object one more user, or makes the object from the disk; the objects
      of the other inodes stay as they are. */
  lemma LookupOpened(open: seq<Inode>, t: seq<seq<byte>>, i: nat, j: nat)
    requires Distinct(open) && Table(t) && i < MAX_INODES && OnDisk(t, i)
    ensures Distinct(Opened(open, t, i))
    ensures Lookup(Opened(open, t, i), j) ==
            if j != i then Lookup(open, j)
            else match Lookup(open, i)
                 case Some(n) => Some(n.(openCnts := n.openCnts + 1))
                 case None => Some(Decode(Slot(t, i)).(openCnts := 1))
  {
    hide Decode, Slot;
    match Find(open, i)
    case Some(k) => LookupUpdate(open, k, open[k].(openCnts := open[k].openCnts + 1), j);
    case None => LookupPush(open, Decode(Slot(t, i)).(openCnts := 1), j);
  }

  lemma LookupClosed(open: seq<Inode>, i: nat, j: nat)
    requires Distinct(open) && Lookup(open, i).Some? && Lookup(open, i).value.openCnts > 0
    ensures Distinct(Closed(open, i))
    ensures Lookup(Closed(open, i), j) ==
            if j != i then Lookup(open, j)
            else
              var n := Lookup(open, i).value;
              if n.openCnts == 1 then None else Some(n.(openCnts := n.openCnts - 1))
  {
    var k := Find(open, i).value;
    if open[k].openCnts == 1 {
      LookupRemove(open, k, j);
    } else {
      LookupUpdate(open, k, open[k].(openCnts := open[k].openCnts - 1), j);
    }
  }

  lemma OpenKeepsCounts(open: seq<Inode>, handles: multiset<nat>, t: seq<seq<byte>>, i: nat)
    requires Counted(open, handles) && Table(t) && i < MAX_INODES && OnDisk(t, i)
    ensures Counted(Opened(open, t, i), handles + multiset{i})
  {
    LookupOpened(open, t, i, i);
    forall j: nat ensures CountOk(Opened(open, t, i), handles + multiset{i}, j) {
      LookupOpened(open, t, i, j);
      assert CountOk(open, handles, j);
    }
  }

  /** The object is freed exactly when its last handle goes. */
  lemma CloseKeepsCounts(open: seq<Inode>, handles: multiset<nat>, i: nat)
    requires Counted(open, handles) && i in handles
    ensures Lookup(open, i).Some? && Lookup(open, i).value.openCnts > 0
    ensures Counted(Closed(open, i), handles - multiset{i})
    ensures Lookup(Closed(open, i), i).None? <==> handles[i] == 1
  {
    assert CountOk(open, handles, i);
    LookupClosed(open, i, i);
    forall j: nat ensures CountOk(Closed(open, i), handles - multiset{i}, j) {
      LookupClosed(open, i, j);
      assert CountOk(open, handles, j);
    }
  }

  /** The end of file_create: a new object with one user goes to the front of the list. */
  function Pushed(open: seq<Inode>, n: Inode): seq<Inode> {
    [n.(openCnts := 1)] + open
  }

  lemma PushKeepsCounts(open: seq<Inode>, handles: multiset<nat>, n: Inode)
    requires Counted(open, handles) && n.iNo !in handles
    ensures Counted(Pushed(open, n), handles + multiset{n.iNo})
    ensures forall j {:trigger Lookup(Pushed(open, n), j)} :: Lookup(Pushed(open, n), j) == if j == n.iNo then Some(n.(openCnts := 1)) else Lookup(open, j)
  {
    assert CountOk(open, handles, n.iNo);
    forall j: nat
      ensures CountOk(Pushed(open, n), handles + multiset{n.iNo}, j)
      ensures Lookup(Pushed(open, n), j) == if j == n.iNo then Some(n.(openCnts := 1)) else Lookup(open, j)
    {
      LookupPush(open, n.(openCnts := 1), j);
      assert CountOk(open, handles, j);
    }
    LookupPush(open, n.(openCnts := 1), 0);
  }

  /** A user changes the object: its size and blocks, not its number or its count. */
  function Edited(open: seq<Inode>, n: Inode): seq<Inode>
    requires Lookup(open, n.iNo).Some?
  {
    var k := Find(open, n.iNo).value;
    open[k := n.(openCnts := open[k].openCnts)]
  }

  lemma EditKeepsCounts(open: seq<Inode>, handles: multiset<nat>, n: Inode)
    requires Counted(open, handles) && n.iNo in handles
    ensures Lookup(open, n.iNo).Some? && Counted(Edited(open, n), handles)
    ensures forall j {:trigger Lookup(Edited(open, n), j)} :: Lookup(Edited(open, n), j) ==
              if j == n.iNo then Some(n.(openCnts := Lookup(open, n.iNo).value.openCnts)) else Lookup(open, j)
  {
    assert CountOk(open, handles, n.iNo);
    var k := Find(open, n.iNo).value;
    var m := n.(openCnts := open[k].openCnts);
    forall j: nat
      ensures CountOk(Edited(open, n), handles, j)
      ensures Lookup(Edited(open, n), j) == if j == n.iNo then Some(m) else Lookup(open, j)
    {
      LookupUpdate(open, k, m, j);
      assert CountOk(open, handles, j);
    }
    LookupUpdate(open, k, m, 0);
  }

  // ---------- Any run ----------

  /** The cache and the table on disk. `dirty` are the inodes changed in memory or deleted on disk since
      they were last written; only the proofs look at it. */
  datatype Cache = Cache(open: seq<Inode>, handles: multiset<nat>, table: seq<seq<byte>>, dirty: set<nat>)

  datatype Event =
    | Open(i: nat)       // inode_open
    | Close(i: nat)      // inode_close
    | Create(n: Inode)   // file_create: inode_sync of the new inode, then list_push
    | Edit(n: Inode)     // a change of an open inode in memory
    | Sync(i: nat)       // inode_sync of an open inode
    | Delete(i: nat)     // inode_delete

  /** Two inodes agree in all that is kept on the disk. */
  predicate SaysTheSame(m: Inode, n: Inode) {
    m.iNo == n.iNo && m.size == n.size && m.sectors == n.sectors
  }

  /** What a cached object that is not dirty says, its slot on the disk says too. */
  predicate CleanOk(c: Cache, i: nat)
    requires Table(c.table)
  {
    match Lookup(c.open, i)
    case None => true
    case Some(n) => n.iNo == i < 256 && WellFormed(n) && (i !in c.dirty ==> SaysTheSame(Decode(Slot(c.table, i)), n))
  }

  ghost predicate CacheInv(c: Cache) {
    Table(c.table) && Counted(c.open, c.handles) && forall i: nat {:trigger CleanOk(c, i)} :: CleanOk(c, i)
  }

  /** Numbers stay below 256; a number is given to a new file only when nobody has it open. */
  ghost predicate Allowed(c: Cache, e: Event)
    requires CacheInv(c)
  {
    match e
    case Open(i) => i < 256 && OnDisk(c.table, i)
    case Close(i) => i in c.handles
    case Create(n) => n.iNo < 256 && n.iNo !in c.handles && WellFormed(n)
    case Edit(n) => n.iNo in c.handles && WellFormed(n)
    case Sync(i) => i in c.handles
    case Delete(i) => i < 256
  }

  ghost function Next(c: Cache, e: Event): (r: Cache)
    requires CacheInv(c) && Allowed(c, e)
    ensures CacheInv(r)
  {
    match e
    case Open(i) => OpenStep(c, i); c.(open := Opened(c.open, c.table, i), handles := c.handles + multiset{i})
    case Close(i) => CloseStep(c, i); c.(open := Closed(c.open, i), handles := c.handles - multiset{i})
    case Create(n) =>
      CreateStep(c, n);
      Cache(Pushed(c.open, n), c.handles + multiset{n.iNo}, Stored(c.table, n.iNo % 256, Encode(Pure(n))), c.dirty - {n.iNo})
    case Edit(n) => EditStep(c, n); c.(open := Edited(c.open, n), dirty := c.dirty + {n.iNo})
    case Sync(i) =>
      SyncStep(c, i);
      c.(table := Stored(c.table, i % 256, Encode(Pure(Lookup(c.open, i).value))), dirty := c.dirty - {i})
    case Delete(i) => DeleteStep(c, i); c.(table := Stored(c.table, i, Zeros(INODE_SIZE)), dirty := c.dirty + {i})
  }

  /** The inode that an event is about. */
  function Number(e: Event): nat {
    match e
    case Open(i) => i
    case Close(i) => i
    case Create(n) => n.iNo
    case Edit(n) => n.iNo
    case Sync(i) => i
    case Delete(i) => i
  }

  /** What each event does to the users, and to what is known to be on the disk. */
  lemma EventCounts(c: Cache, e: Event)
    requires CacheInv(c) && Allowed(c, e)
    ensures var r := Next(c, e);
            && r.handles == (if e.Open? || e.Create? then c.handles + multiset{Number(e)} else if e.Close? then c.handles - multiset{Number(e)} else c.handles)
            && r.dirty == (if e.Edit? || e.Delete? then c.dirty + {Number(e)} else if e.Sync? || e.Create? then c.dirty - {Number(e)} else c.dirty)
  {
    hide CacheInv, Opened, Closed, Pushed, Edited, Stored, Encode, Lookup;
  }

  /** Every inode that an event is not about stays as it is, in memory and on the disk. */
  lemma OthersStay(c: Cache, e: Event, j: nat)
    requires CacheInv(c) && Allowed(c, e) && j < 256 && j != Number(e)
    ensures Lookup(Next(c, e).open, j) == Lookup(c.open, j)
    ensures Table(c.table) && Table(Next(c, e).table) && Slot(Next(c, e).table, j) == Slot(c.table, j)
  {
    OthersInMemory(c, e, j);
    OthersOnDisk(c, e, j);
  }

  lemma OthersInMemory(c: Cache, e: Event, j: nat)
    requires CacheInv(c) && Allowed(c, e) && j != Number(e)
    ensures Lookup(Next(c, e).open, j) == Lookup(c.open, j)
  {
    CountedDistinct(c.open, c.handles);
    hide Decode, Slot, Opened, Closed, Pushed, Edited, Counted, Stored, Encode, CleanOk, Lookup;
    match e
    case Open(i) => LookupOpened(c.open, c.table, i, j);
    case Close(i) =>
      CloseStep(c, i);
      LookupClosed(c.open, i, j);
    case Create(n) => PushKeepsCounts(c.open, c.handles, n);
    case Edit(n) => EditKeepsCounts(c.open, c.handles, n);
    case Sync(i) =>
    case Delete(i) =>
  }

  lemma OthersOnDisk(c: Cache, e: Event, j: nat)
    requires CacheInv(c) && Allowed(c, e) && j < 256 && j != Number(e)
    ensures Table(c.table) && Table(Next(c, e).table) && Slot(Next(c, e).table, j) == Slot(c.table, j)
  {
    hide Decode, Slot, Opened, Closed, Pushed, Edited, Counted, Stored, Encode, CleanOk, Lookup;
    match e
    case Open(i) =>
    case Close(i) =>
    case Create(n) => StoredSlot(c.table, n.iNo, Encode(Pure(n)), j);
    case Edit(n) =>
    case Sync(i) =>
      SyncStep(c, i);
      SyncAt(c, i);
      StoredSlot(c.table, i, Encode(Pure(Lookup(c.open, i).value)), j);
    case Delete(i) => StoredSlot(c.table, i, Zeros(INODE_SIZE), j);
  }

  /** What an event does to the inode that it is about. A user who opens it gets the object that is there,
      or the one that the disk has; a new or changed one says what it was given. */
  lemma EventObject(c: Cache, e: Event)
    requires CacheInv(c) && Allowed(c, e)
    ensures var r, now := Next(c, e), Lookup(Next(c, e).open, Number(e));
            && Table(c.table) && Table(r.table) && (e.Close? ==> Lookup(c.open, e.i).Some? && c.handles[e.i] > 0)
            && (e.Create? || e.Edit? ==> now.Some? && now.value.iNo == e.n.iNo && now.value.size == e.n.size && now.value.sectors == e.n.sectors)
            && (e.Open? ==>
                  match Lookup(c.open, e.i)
                  case Some(n) => now == Some(n.(openCnts := n.openCnts + 1))
                  case None => now == Some(Decode(Slot(c.table, e.i)).(openCnts := 1)))
            && (e.Close? ==> now == if c.handles[e.i] == 1 then None else Some(Lookup(c.open, e.i).value.(openCnts := c.handles[e.i] - 1)))
            && (e.Sync? || e.Delete? ==> now == Lookup(c.open, e.i))
            && (e.Delete? ==> Slot(r.table, e.i) == Zeros(76))
  {
    CountedDistinct(c.open, c.handles);
    assert CountOk(c.open, c.handles, Number(e));
    hide Decode, Slot, Opened, Closed, Pushed, Edited, Counted, Stored, Encode, CleanOk, Lookup;
    match e
    case Open(i) => LookupOpened(c.open, c.table, i, i);
    case Close(i) =>
      CloseStep(c, i);
      LookupClosed(c.open, i, i);
    case Create(n) => PushKeepsCounts(c.open, c.handles, n);
    case Edit(n) => EditKeepsCounts(c.open, c.handles, n);
    case Sync(i) =>
    case Delete(i) => StoredSlot(c.table, i, Zeros(INODE_SIZE), i);
  }

  lemma SyncAt(c: Cache, i: nat)
    requires CacheInv(c) && i in c.handles
    ensures i < 256
  {
    assert CountOk(c.open, c.handles, i) && CleanOk(c, i);
  }

  lemma DecodeWellFormed(b: seq<byte>)
    requires |b| == INODE_SIZE
    ensures WellFormed(Decode(b))
  {
    forall k | 0 <= k < 13
      ensures WordAt(b, 16 + 4 * k) < 0x1_0000_0000
    {}
  }

  lemma OpenStep(c: Cache, i: nat)
    requires CacheInv(c) && i < 256 && OnDisk(c.table, i)
    ensures CacheInv(c.(open := Opened(c.open, c.table, i), handles := c.handles + multiset{i}))
  {
    var r := c.(open := Opened(c.open, c.table, i), handles := c.handles + multiset{i});
    OpenKeepsCounts(c.open, c.handles, c.table, i);
    DecodeWellFormed(Slot(c.table, i));
    hide Opened, Counted, Decode, Slot;
    forall j: nat ensures CleanOk(r, j) {
      assert CleanOk(c, j) && CleanOk(c, i);
      CountedDistinct(c.open, c.handles);
      LookupOpened(c.open, c.table, i, j);
    }
  }

  lemma CountedDistinct(open: seq<Inode>, handles: multiset<nat>)
    requires Counted(open, handles)
    ensures Distinct(open)
  {}

  lemma CloseStep(c: Cache, i: nat)
    requires CacheInv(c) && i in c.handles
    ensures Lookup(c.open, i).Some? && Lookup(c.open, i).value.openCnts > 0
    ensures CacheInv(c.(open := Closed(c.open, i), handles := c.handles - multiset{i}))
  {
    CloseKeepsCounts(c.open, c.handles, i);
    var r := c.(open := Closed(c.open, i), handles := c.handles - multiset{i});
    hide Closed, Counted, Decode, Slot;
    forall j: nat ensures CleanOk(r, j) {
      assert CleanOk(c, j) && CleanOk(c, i);
      CountedDistinct(c.open, c.handles);
      LookupClosed(c.open, i, j);
    }
  }

  lemma CreateStep(c: Cache, n: Inode)
    requires CacheInv(c) && n.iNo < 256 && n.iNo !in c.handles && WellFormed(n)
    ensures CacheInv(Cache(Pushed(c.open, n), c.handles + multiset{n.iNo}, Stored(c.table, n.iNo % 256, Encode(Pure(n))), c.dirty - {n.iNo}))
  {
    PushKeepsCounts(c.open, c.handles, n);
    var r := Cache(Pushed(c.open, n), c.handles + multiset{n.iNo}, Stored(c.table, n.iNo % 256, Encode(Pure(n))), c.dirty - {n.iNo});
    hide Pushed, Counted, Decode, Slot, Stored, Encode;
    forall j: nat ensures CleanOk(r, j) {
      assert CleanOk(c, j);
      if j < 256 {
        SyncThenOpen(c.table, n, j);
      }
    }
  }

  lemma EditStep(c: Cache, n: Inode)
    requires CacheInv(c) && n.iNo in c.handles && WellFormed(n)
    ensures Lookup(c.open, n.iNo).Some? && CacheInv(c.(open := Edited(c.open, n), dirty := c.dirty + {n.iNo}))
  {
    EditKeepsCounts(c.open, c.handles, n);
    var r := c.(open := Edited(c.open, n), dirty := c.dirty + {n.iNo});
    hide Edited, Counted, Decode, Slot;
    forall j: nat ensures CleanOk(r, j) {
      assert CleanOk(c, j) && CleanOk(c, n.iNo);
    }
  }

  lemma SyncStep(c: Cache, i: nat)
    requires CacheInv(c) && i in c.handles
    ensures Lookup(c.open, i).Some? && |Lookup(c.open, i).value.sectors| == 13
    ensures CacheInv(c.(table := Stored(c.table, i % 256, Encode(Pure(Lookup(c.open, i).value))), dirty := c.dirty - {i}))
  {
    assert CountOk(c.open, c.handles, i) && CleanOk(c, i);
    var n := Lookup(c.open, i).value;
    var r := c.(table := Stored(c.table, i % 256, Encode(Pure(n))), dirty := c.dirty - {i});
    hide Counted, Decode, Slot, Stored, Encode;
    forall j: nat ensures CleanOk(r, j) {
      assert CleanOk(c, j);
      if j < 256 {
        SyncThenOpen(c.table, n, j);
      }
    }
  }

  lemma DeleteStep(c: Cache, i: nat)
    requires CacheInv(c) && i < 256
    ensures CacheInv(c.(table := Stored(c.table, i, Zeros(INODE_SIZE)), dirty := c.dirty + {i}))
  {
    var r := c.(table := Stored(c.table, i, Zeros(INODE_SIZE)), dirty := c.dirty + {i});
    hide Counted, Decode, Slot, Stored;
    forall j: nat ensures CleanOk(r, j) {
      assert CleanOk(c, j);
      if j < 256 {
        StoredSlot(c.table, i, Zeros(INODE_SIZE), j);
      }
    }
  }

  /** r is what the events make of c; each is allowed when it happens. */
  ghost predicate Leads(c: Cache, es: seq<Event>, r: Cache)
    requires CacheInv(c)
    decreases |es|
  {
    if es == [] then r == c else Allowed(c, es[0]) && Leads(Next(c, es[0]), es[1..], r)
  }

  /** After any run of opens, closes, creations, changes, syncs and deletions, the list holds exactly the
      inodes that somebody has open, each once, counting its users; all users of an inode share that
      object; and its number, size and blocks are on the disk unless it was changed since it was last
      written. */
  lemma {:induction false} RunsKeepTheCache(c: Cache, es: seq<Event>, r: Cache)
    requires CacheInv(c) && Leads(c, es, r)
    ensures CacheInv(r)
    ensures forall j, k :: 0 <= j < k < |r.open| ==> r.open[j].iNo != r.open[k].iNo
    ensures forall k :: 0 <= k < |r.open| ==> r.open[k].iNo in r.handles && r.open[k].openCnts == r.handles[r.open[k].iNo]
    ensures forall i: nat :: i in r.handles ==> exists k :: 0 <= k < |r.open| && r.open[k].iNo == i
    ensures Table(r.table)
    ensures forall k :: 0 <= k < |r.open| && r.open[k].iNo !in r.dirty ==>
              && r.open[k].iNo < 256
              && var m := Decode(Slot(r.table, r.open[k].iNo));
              m.iNo == r.open[k].iNo && m.size == r.open[k].size && m.sectors == r.open[k].sectors
    decreases |es|
  {
    if es == [] {
      CacheSays(r);
    } else {
      hide CacheInv, Next, Allowed, Decode, Slot;
      RunsKeepTheCache(Next(c, es[0]), es[1..], r);
    }
  }

  lemma CacheSays(r: Cache)
    requires CacheInv(r)
    ensures forall j, k :: 0 <= j < k < |r.open| ==> r.open[j].iNo != r.open[k].iNo
    ensures forall k :: 0 <= k < |r.open| ==> r.open[k].iNo in r.handles && r.open[k].openCnts == r.handles[r.open[k].iNo]
    ensures forall i: nat :: i in r.handles ==> exists k :: 0 <= k < |r.open| && r.open[k].iNo == i
    ensures Table(r.table)
    ensures forall k :: 0 <= k < |r.open| && r.open[k].iNo !in r.dirty ==>
              && r.open[k].iNo < 256
              && var m := Decode(Slot(r.table, r.open[k].iNo));
              m.iNo == r.open[k].iNo && m.size == r.open[k].size && m.sectors == r.open[k].sectors
  {
    CountedDistinct(r.open, r.handles);
    hide Decode, Slot;
    forall k: nat | k < |r.open|
      ensures r.open[k].iNo in r.handles && r.open[k].openCnts == r.handles[r.open[k].iNo]
      ensures Lookup(r.open, r.open[k].iNo) == Some(r.open[k]) && CleanOk(r, r.open[k].iNo)
    {
      FindIs(r.open, k);
      assert CountOk(r.open, r.handles, r.open[k].iNo) && CleanOk(r, r.open[k].iNo);
    }
    forall i: nat | i in r.handles
      ensures exists k :: 0 <= k < |r.open| && r.open[k].iNo == i
    {
      assert CountOk(r.open, r.handles, i);
      assert r.open[Find(r.open, i).value].iNo == i;
    }
  }

  /** Closing the last handle of an inode that is not dirty and opening it again gives an object with the
      same number, size and blocks, and one user. */
  lemma ReopenedIsSame(c: Cache, i: nat)
    requires CacheInv(c) && c.handles[i] == 1 && i !in c.dirty && Lookup(c.open, i).Some?
    ensures Allowed(c, Close(i)) && Allowed(Next(c, Close(i)), Open(i))
    ensures var r := Lookup(Next(Next(c, Close(i)), Open(i)).open, i);
            var n := Lookup(c.open, i).value;
            r.Some? && r.value.iNo == n.iNo == i && r.value.size == n.size && r.value.sectors == n.sectors && r.value.openCnts == 1
  {
    assert CleanOk(c, i);
    CountedDistinct(c.open, c.handles);
    CloseKeepsCounts(c.open, c.handles, i);
    hide Decode, Slot, Closed, Opened, Counted;
    LookupClosed(c.open, i, i);
    CountedDistinct(Closed(c.open, i), c.handles - multiset{i});
    LookupOpened(Closed(c.open, i), c.table, i, i);
  }

  lemma OpenedIs(open: seq<Inode>, handles: multiset<nat>, t: seq<seq<byte>>, i: nat)
    requires Counted(open, handles) && Table(t) && i < MAX_INODES
    ensures forall k :: 0 <= k < |open| && open[k].iNo == i ==> Opened(open, t, i) == open[k := open[k].(openCnts := open[k].openCnts + 1)]
    ensures (forall k :: 0 <= k < |open| ==> open[k].iNo != i) ==> Opened(open, t, i) == [Decode(Slot(t, i)).(openCnts := 1)] + open
  {
    hide Decode, Slot;
    forall k: nat | k < |open| && open[k].iNo == i
      ensures Find(open, i) == Some(k)
    {
      FindIs(open, k);
    }
  }

  lemma ClosedIs(open: seq<Inode>, handles: multiset<nat>, i: nat)
    requires Counted(open, handles) && Lookup(open, i).Some? && Lookup(open, i).value.openCnts > 0
    ensures forall k :: 0 <= k < |open| && open[k].iNo == i ==>
              Closed(open, i) == if open[k].openCnts == 1 then open[..k] + open[k + 1..] else open[k := open[k].(openCnts := open[k].openCnts - 1)]
  {
    forall k: nat | k < |open| && open[k].iNo == i
      ensures Find(open, i) == Some(k)
    {
      FindIs(open, k);
    }
  }

  // ---------- The routines ----------

  class OpenInodes {
    var table: seq<seq<byte>>        // the inode table on the disk
    var open: seq<Inode>             // part->open_inodes, the most recently read first
    ghost var handles: multiset<nat>

    ghost predicate Valid()
      reads this
    {
      Table(table) && Counted(open, handles)
    }

    constructor (table: seq<seq<byte>>)
      requires Table(table)
      ensures Valid() && this.table == table && open == [] && handles == multiset{}
    {
      this.table := table;
      open, handles := [], multiset{};
    }

    method InodeOpen(i: nat)
      requires Valid() && i < MAX_INODES && OnDisk(table, i)
      modifies this`open, this`handles
      ensures Valid() && handles == old(handles) + multiset{i} && open == Opened(old(open), table, i)
      ensures forall k :: 0 <= k < |old(open)| && old(open)[k].iNo == i ==> open == old(open)[k := old(open)[k].(openCnts := old(open)[k].openCnts + 1)]
      ensures (forall k :: 0 <= k < |old(open)| ==> old(open)[k].iNo != i) ==> open == [Decode(Slot(table, i)).(openCnts := 1)] + old(open)
    {
      OpenKeepsCounts(open, handles, table, i);
      OpenedIs(open, handles, table, i);
      handles := handles + multiset{i};
      hide Decode, Slot, Counted, OnDisk;
      var k := 0;
      while k < |open|
        invariant 0 <= k <= |open| && open == old(open)
        invariant forall j :: 0 <= j < k ==> open[j].iNo != i
      {
        if open[k].iNo == i {
          open := open[k := open[k].(openCnts := open[k].openCnts + 1)];
          return;
        }
        k := k + 1;
      }
      var n := ReadInode(table, i);
      open := [n.(openCnts := 1)] + open;
    }

    /** The end of file_create: the new inode is written to its slot and put on the list. */
    method InodePush(n: Inode)
      requires Valid() && WellFormed(n) && n.iNo < 256 && n.iNo !in handles
      modifies this`table, this`open, this`handles
      ensures Valid() && handles == old(handles) + multiset{n.iNo}
      ensures open == Pushed(old(open), n) == [n.(openCnts := 1)] + old(open)
      ensures Table(old(table)) && table == Stored(old(table), n.iNo % 256, Encode(Pure(n)))
      ensures var m := Decode(Slot(table, n.iNo)); m.iNo == n.iNo && m.size == n.size && m.sectors == n.sectors
      ensures forall j :: 0 <= j < MAX_INODES && j != n.iNo ==> Slot(table, j) == Slot(old(table), j)
    {
      hide Table, WellFormed, Decode, Slot, Stored, Encode, Counted, Lookup;
      PushKeepsCounts(open, handles, n);
      table := InodeSync(table, n);
      open := [n.(openCnts := 1)] + open;
      handles := handles + multiset{n.iNo};
    }

    method InodeClose(i: nat)
      requires Valid() && i in handles
      modifies this`open, this`handles
      ensures Valid() && handles == old(handles) - multiset{i}
      ensures Lookup(old(open), i).Some? && Lookup(old(open), i).value.openCnts > 0 && open == Closed(old(open), i)
      ensures Lookup(open, i).None? <==> old(handles)[i] == 1
      ensures forall k :: 0 <= k < |old(open)| && old(open)[k].iNo == i ==>
                open == if old(open)[k].openCnts == 1 then old(open)[..k] + old(open)[k + 1..] else old(open)[k := old(open)[k].(openCnts := old(open)[k].openCnts - 1)]
    {
      CloseKeepsCounts(open, handles, i);
      ClosedIs(open, handles, i);
      handles := handles - multiset{i};
      var k := Find(open, i).value;
      open := open[k := open[k].(openCnts := open[k].openCnts - 1)];
      if open[k].openCnts == 0 {
        open := Removed(open, k);
      }
    }
  }
}
