/**
  The heap: arenas cut into blocks of seven sizes, and one free list for each size
  (kernel/memory.c:46-61 and 377-578). One task uses the heap; `live` records the pointers it holds
  and the sizes it asked for, which only the proofs look at.
 */
module Heap {
  import opened Outcomes

  const PAGE := 4096
  const HEADER := 12                 // sizeof(struct arena)
  const CLASSES := 7                 // DESC_CNT

  /** An arena's metadata: `desc` and `cnt`, or the page count of a large one. */
  datatype Arena = Small(cls: nat, cnt: nat) | Large(pages: nat)

  datatype Heap = Heap(arenas: map<nat, Arena>, free: seq<seq<nat>>, live: map<nat, nat>)

  // ---------- Sizes and addresses ----------

  /** block_desc_init: each size is twice the one before. */
  function BlockSize(k: nat): nat {
    if k == 0 then 16 else 2 * BlockSize(k - 1)
  }

  function BlocksPerArena(k: nat): nat
    requires BlockSize(k) > 0
  {
    (PAGE - HEADER) / BlockSize(k)
  }

  lemma SizeTable(k: nat)
    requires k < CLASSES
    ensures BlockSize(k) == (match k case 0 => 16 case 1 => 32 case 2 => 64 case 3 => 128 case 4 => 256 case 5 => 512 case _ => 1024)
    ensures BlocksPerArena(k) == (match k case 0 => 255 case 1 => 127 case 2 => 63 case 3 => 31 case 4 => 15 case 5 => 7 case _ => 3)
  {
    assert BlockSize(0) == 16 && BlockSize(1) == 32 && BlockSize(2) == 64;
    assert BlockSize(3) == 128 && BlockSize(4) == 256;
    assert BlockSize(5) == 512 && BlockSize(6) == 1024;
  }

  /** The number of blocks in an arena of class k, 0 for a class that does not exist. */
  function Count(k: nat): nat {
    if k < CLASSES then SizeTable(k); BlocksPerArena(k) else 0
  }

  /** arena2block, for the arena in page p. */
  function Block(p: nat, k: nat, idx: nat): nat {
    p * PAGE + HEADER + idx * BlockSize(k)
  }

  /** block2arena: the address with its low 12 bits cleared, as a page number. */
  function PageOf(b: nat): nat {
    b / PAGE
  }

  /** A block lies in its arena's page, block2arena finds the arena, and the blocks of an arena do
      not overlap. */
  lemma BlockInArena(p: nat, k: nat, idx: nat)
    requires k < CLASSES && idx < Count(k)
    ensures PageOf(Block(p, k, idx)) == p
    ensures p * PAGE + HEADER <= Block(p, k, idx) && Block(p, k, idx) + BlockSize(k) <= (p + 1) * PAGE
  {
    SizeTable(k);
    var off := HEADER + idx * BlockSize(k);
    Offset(k, idx);
    assert Block(p, k, idx) == p * PAGE + off;
    assert Block(p, k, idx) / PAGE == p && Block(p, k, idx) % PAGE == off;
  }

  lemma Offset(k: nat, idx: nat)
    requires k < CLASSES && idx < Count(k)
    ensures HEADER + idx * BlockSize(k) + BlockSize(k) <= PAGE
  {
    SizeTable(k);
    match k
    case 0 =>
    case 1 =>
    case 2 =>
    case 3 =>
    case 4 =>
    case 5 =>
    case _ =>
  }

  lemma BlocksApart(p: nat, k: nat, i: nat, j: nat)
    requires k < CLASSES && i < j
    ensures Block(p, k, i) + BlockSize(k) <= Block(p, k, j)
  {
    SizeTable(k);
    var s := BlockSize(k);
    assert j * s == i * s + (j - i) * s;
  }

  /** The loop that looks for the class: the smallest one that is big enough. */
  function ClassOf(size: nat): nat {
    if size <= 16 then 0 else if size <= 32 then 1 else if size <= 64 then 2 else if size <= 128 then 3
    else if size <= 256 then 4 else if size <= 512 then 5 else 6
  }

  // ---------- The invariant ----------

  function Span(a: Arena): nat {
    match a
    case Small(_, _) => 1
    case Large(n) => n
  }

  /** The pointer that a large allocation returns: a + 1. */
  function Head(p: nat): nat {
    p * PAGE + HEADER
  }

  /** The blocks of the arena in page p that are on the free list of its class. */
  function FreeIn(h: Heap, p: nat, k: nat): set<nat> {
    set idx: nat | idx < Count(k) && k < |h.free| && Block(p, k, idx) in h.free[k]
  }

  predicate InSmall(h: Heap, p: nat, k: nat) {
    p in h.arenas && h.arenas[p].Small? && h.arenas[p].cls == k && k < CLASSES
  }

  /** `cnt` counts the arena's free blocks; a large arena has room for the size asked for. */
  ghost predicate ArenaOk(h: Heap, p: nat) {
    p in h.arenas ==>
      match h.arenas[p]
      case Small(k, cnt) => k < CLASSES && cnt == |FreeIn(h, p, k)|
      case Large(n) => n >= 1 && Head(p) in h.live && 1024 < h.live[Head(p)] && HEADER + h.live[Head(p)] <= n * PAGE
  }

  /** No arena is entirely free. */
  ghost predicate NotIdle(h: Heap, p: nat) {
    p in h.arenas && h.arenas[p].Small? ==> h.arenas[p].cnt < Count(h.arenas[p].cls)
  }

  ghost predicate Apart(h: Heap, p: nat, q: nat) {
    p in h.arenas && q in h.arenas && p < q ==> p + Span(h.arenas[p]) <= q
  }

  /** A block on a free list is a block of an arena of that class, and nobody holds it. */
  ghost predicate FreeOk(h: Heap, k: nat, b: nat) {
    k < |h.free| && b in h.free[k] ==>
      && InSmall(h, PageOf(b), k) && b !in h.live
      && exists idx: nat :: idx < Count(k) && b == Block(PageOf(b), k, idx)
  }

  /** A live pointer is a block of sufficient size, or the head of a large arena. */
  ghost predicate LiveOk(h: Heap, b: nat) {
    b in h.live ==>
      && PageOf(b) in h.arenas
      && match h.arenas[PageOf(b)]
         case Small(k, _) =>
           && k < CLASSES && h.live[b] <= BlockSize(k) && exists idx: nat :: idx < Count(k) && b == Block(PageOf(b), k, idx)
         case Large(n) => b == Head(PageOf(b))
  }

  /** Every block of a small arena is on its free list or live. */
  ghost predicate BlockOk(h: Heap, p: nat, idx: nat) {
    p in h.arenas && h.arenas[p].Small? && idx < Count(h.arenas[p].cls) && h.arenas[p].cls < |h.free| ==>
      var b := Block(p, h.arenas[p].cls, idx);
      b in h.free[h.arenas[p].cls] <==> b !in h.live
  }

  ghost predicate Lists(h: Heap) {
    |h.free| == CLASSES && forall k :: 0 <= k < CLASSES ==> NoDup(h.free[k])
  }

  /** The invariant while an operation is under way. */
  ghost predicate Sound(h: Heap) {
    && Lists(h)
    && (forall p {:trigger ArenaOk(h, p)} :: ArenaOk(h, p))
    && (forall p, q {:trigger Apart(h, p, q)} :: Apart(h, p, q))
    && (forall k, b {:trigger FreeOk(h, k, b)} :: FreeOk(h, k, b))
    && (forall b {:trigger LiveOk(h, b)} :: LiveOk(h, b))
    && (forall p, idx {:trigger BlockOk(h, p, idx)} :: BlockOk(h, p, idx))
  }

  ghost predicate HeapInv(h: Heap) {
    Sound(h) && forall p {:trigger NotIdle(h, p)} :: NotIdle(h, p)
  }

  // ---------- What the invariant says to the holders of pointers ----------

  lemma LiveBlock(h: Heap, b: nat) returns (k: nat, idx: nat)
    requires Sound(h) && b in h.live && PageOf(b) in h.arenas && h.arenas[PageOf(b)].Small?
    ensures k == h.arenas[PageOf(b)].cls && k < CLASSES && idx < Count(k) && b == Block(PageOf(b), k, idx) && h.live[b] <= BlockSize(k)
  {
    assert LiveOk(h, b);
    k := h.arenas[PageOf(b)].cls;
    idx :| idx < Count(k) && b == Block(PageOf(b), k, idx);
  }

  /** The bytes of a live allocation lie within the pages of its arena, after the header. */
  lemma LiveInArena(h: Heap, b: nat)
    requires Sound(h) && b in h.live
    ensures var p := PageOf(b);
            p in h.arenas && p * PAGE + HEADER <= b && b + h.live[b] <= (p + Span(h.arenas[p])) * PAGE
  {
    assert LiveOk(h, b);
    var p := PageOf(b);
    if h.arenas[p].Small? {
      var k, idx := LiveBlock(h, b);
      BlockInArena(p, k, idx);
    } else {
      assert ArenaOk(h, p);
    }
  }

  /** Live allocations do not overlap. */
  lemma LiveApart(h: Heap, a: nat, b: nat)
    requires Sound(h) && a in h.live && b in h.live && a < b
    ensures a + h.live[a] <= b
  {
    LiveInArena(h, a);
    LiveInArena(h, b);
    var p: nat, q: nat := PageOf(a), PageOf(b);
    if p == q {
      assert LiveOk(h, a) && LiveOk(h, b);
      var k, i := LiveBlock(h, a);
      var k', j := LiveBlock(h, b);
      if i < j {
        BlocksApart(p, k, i, j);
      } else {
        BlockOrder(p, k, j, i);
      }
    } else {
      assert p < q;
      assert Apart(h, p, q);
      Pages(p + Span(h.arenas[p]), q);
    }
  }

  lemma BlockOrder(p: nat, k: nat, j: nat, i: nat)
    requires k < CLASSES && j <= i
    ensures Block(p, k, j) <= Block(p, k, i)
  {
    if j < i {
      BlocksApart(p, k, j, i);
    }
  }

  lemma Pages(p: nat, q: nat)
    requires p <= q
    ensures p * PAGE <= q * PAGE
  {}

  // ---------- A block is taken from its free list ----------

  /** list_pop, and one block less in its arena. */
  function TakeBlock(h: Heap, k: nat, size: nat): Heap
    requires k < |h.free| && h.free[k] != [] && InSmall(h, PageOf(h.free[k][0]), k) && h.arenas[PageOf(h.free[k][0])].cnt > 0
  {
    var b := h.free[k][0];
    var p := PageOf(b);
    h.(free := h.free[k := h.free[k][1..]], arenas := h.arenas[p := Small(k, h.arenas[p].cnt - 1)], live := h.live[b := size])
  }

  lemma SameBlock(p: nat, k: nat, i: nat, j: nat)
    requires k < CLASSES && Block(p, k, i) == Block(p, k, j)
    ensures i == j
  {
    SizeTable(k);
    if i < j {
      BlocksApart(p, k, i, j);
    } else if j < i {
      BlocksApart(p, k, j, i);
    }
  }

  lemma FirstFreeBlock(h: Heap, k: nat) returns (idx: nat)
    requires Sound(h) && k < CLASSES && h.free[k] != []
    ensures var b := h.free[k][0];
            && InSmall(h, PageOf(b), k) && b !in h.live && idx < Count(k) && b == Block(PageOf(b), k, idx)
            && idx in FreeIn(h, PageOf(b), k) && h.arenas[PageOf(b)].cnt == |FreeIn(h, PageOf(b), k)| > 0
  {
    var b := h.free[k][0];
    assert FreeOk(h, k, b) && ArenaOk(h, PageOf(b));
    idx :| idx < Count(k) && b == Block(PageOf(b), k, idx);
    assert idx in FreeIn(h, PageOf(b), k);
  }

  /** Blocks of other arenas, or of other classes, are other blocks. */
  lemma TakeBlockFreeIn(h: Heap, k: nat, size: nat, idx: nat, q: nat, j: nat)
    requires Sound(h) && k < CLASSES && h.free[k] != [] && InSmall(h, PageOf(h.free[k][0]), k) && h.arenas[PageOf(h.free[k][0])].cnt > 0
    requires idx < Count(k) && h.free[k][0] == Block(PageOf(h.free[k][0]), k, idx)
    ensures FreeIn(TakeBlock(h, k, size), q, j) == FreeIn(h, q, j) - if q == PageOf(h.free[k][0]) && j == k then {idx} else {}
  {
    var r, b := TakeBlock(h, k, size), h.free[k][0];
    NoDupParts(h.free[k]);
    forall i: nat | i < Count(j) && j < CLASSES
      ensures i in FreeIn(r, q, j) <==> i in FreeIn(h, q, j) && !(q == PageOf(b) && j == k && i == idx)
    {
      BlockInArena(q, j, i);
      if j == k && q == PageOf(b) && Block(q, j, i) == b {
        SameBlock(q, k, i, idx);
      }
    }
  }

  lemma TakeBlockKeeps(h: Heap, k: nat, size: nat) returns (r: Heap)
    requires Sound(h) && k < CLASSES && h.free[k] != [] && size <= BlockSize(k)
    requires forall p :: p != PageOf(h.free[k][0]) ==> NotIdle(h, p)
    ensures InSmall(h, PageOf(h.free[k][0]), k) && h.arenas[PageOf(h.free[k][0])].cnt > 0
    ensures r == TakeBlock(h, k, size) && HeapInv(r) && h.free[k][0] !in h.live
  {
    var idx := FirstFreeBlock(h, k);
    var b := h.free[k][0];
    var p := PageOf(b);
    r := TakeBlock(h, k, size);
    NoDupParts(h.free[k]);
    forall q ensures ArenaOk(r, q) && NotIdle(r, q) { TakeBlockArena(h, k, size, idx, q); }
    forall q, t ensures Apart(r, q, t) { assert Apart(h, q, t); }
    forall j, c ensures FreeOk(r, j, c) { assert FreeOk(h, j, c); }
    forall c ensures LiveOk(r, c) { assert LiveOk(h, c); }
    forall q, i ensures BlockOk(r, q, i) { TakeBlockBlock(h, k, size, idx, q, i); }
  }

  lemma TakeBlockArena(h: Heap, k: nat, size: nat, idx: nat, q: nat)
    requires Sound(h) && k < CLASSES && h.free[k] != [] && InSmall(h, PageOf(h.free[k][0]), k) && h.arenas[PageOf(h.free[k][0])].cnt > 0
    requires idx < Count(k) && h.free[k][0] == Block(PageOf(h.free[k][0]), k, idx) && idx in FreeIn(h, PageOf(h.free[k][0]), k)
    requires forall p :: p != PageOf(h.free[k][0]) ==> NotIdle(h, p)
    ensures ArenaOk(TakeBlock(h, k, size), q) && NotIdle(TakeBlock(h, k, size), q)
  {
    assert ArenaOk(h, q) && (q != PageOf(h.free[k][0]) ==> NotIdle(h, q));
    if q in h.arenas && h.arenas[q].Small? {
      assert ArenaOk(h, q);
      TakeBlockFreeIn(h, k, size, idx, q, h.arenas[q].cls);
      FreeInBound(h, q, h.arenas[q].cls);
    }
  }

  lemma FreeInBound(h: Heap, p: nat, k: nat)
    ensures |FreeIn(h, p, k)| <= Count(k)
    ensures |FreeIn(h, p, k)| == Count(k) ==> forall idx: nat :: idx < Count(k) ==> idx in FreeIn(h, p, k)
  {
    SubsetSize(FreeIn(h, p, k), Below(Count(k)));
  }

  ghost function Below(n: nat): (r: set<nat>)
    ensures |r| == n && forall i: nat :: i in r <==> i < n
  {
    if n == 0 then {} else Below(n - 1) + {n - 1}
  }

  lemma {:induction false} SubsetSize(a: set<nat>, b: set<nat>)
    requires a <= b
    ensures |a| <= |b| && (|a| == |b| ==> a == b)
  {
    if a != {} {
      var x :| x in a;
      SubsetSize(a - {x}, b - {x});
    }
  }

  lemma TakeBlockBlock(h: Heap, k: nat, size: nat, idx: nat, q: nat, i: nat)
    requires Sound(h) && k < CLASSES && h.free[k] != [] && InSmall(h, PageOf(h.free[k][0]), k) && h.arenas[PageOf(h.free[k][0])].cnt > 0
    requires idx < Count(k) && h.free[k][0] == Block(PageOf(h.free[k][0]), k, idx)
    ensures BlockOk(TakeBlock(h, k, size), q, i)
  {
    assert BlockOk(h, q, i);
    NoDupParts(h.free[k]);
    if q in h.arenas && h.arenas[q].Small? {
      assert ArenaOk(h, q);
      if i < Count(h.arenas[q].cls) {
        BlockInArena(q, h.arenas[q].cls, i);
      }
    }
  }

  // ---------- A new arena ----------

  function AllBlocks(p: nat, k: nat, n: nat): (r: seq<nat>)
    ensures |r| == n && forall i :: 0 <= i < n ==> r[i] == Block(p, k, i)
  {
    seq(n, i requires 0 <= i < n => Block(p, k, i))
  }

  /** A page from malloc_page is cut into blocks, all of them free. */
  function NewArena(h: Heap, k: nat, p: nat): Heap
    requires k < |h.free|
  {
    h.(arenas := h.arenas[p := Small(k, Count(k))], free := h.free[k := AllBlocks(p, k, Count(k))])
  }

  /** Pages that no arena lies in. */
  ghost predicate Fresh(h: Heap, p: nat, n: nat) {
    forall q :: q in h.arenas ==> q + Span(h.arenas[q]) <= p || p + n <= q
  }

  lemma FreshPage(h: Heap, p: nat, n: nat, b: nat)
    requires Sound(h) && Fresh(h, p, n) && n > 0
    ensures p !in h.arenas && (PageOf(b) == p ==> b !in h.live && forall k :: 0 <= k < CLASSES ==> b !in h.free[k])
  {
    assert ArenaOk(h, p) && LiveOk(h, b);
    forall k | 0 <= k < CLASSES
      ensures b in h.free[k] ==> PageOf(b) in h.arenas
    {
      assert FreeOk(h, k, b);
    }
  }

  lemma NewArenaFreeIn(h: Heap, k: nat, p: nat, q: nat, j: nat)
    requires Sound(h) && k < CLASSES && h.free[k] == [] && Fresh(h, p, 1)
    ensures q in h.arenas ==> FreeIn(NewArena(h, k, p), q, j) == FreeIn(h, q, j)
    ensures |FreeIn(NewArena(h, k, p), p, k)| == Count(k)
  {
    var r := NewArena(h, k, p);
    forall i: nat | i < Count(j) && j < CLASSES
      ensures q in h.arenas ==> (i in FreeIn(r, q, j) <==> i in FreeIn(h, q, j))
    {
      BlockInArena(q, j, i);
      FreshPage(h, p, 1, Block(q, j, i));
      if Block(q, j, i) in r.free[k] && j == k {
        var x :| 0 <= x < Count(k) && r.free[k][x] == Block(q, j, i);
        BlockInArena(p, k, x);
      }
    }
    assert q in h.arenas ==> FreeIn(r, q, j) == FreeIn(h, q, j);
    forall i: nat | i < Count(k)
      ensures i in FreeIn(r, p, k)
    {
      assert r.free[k][i] == Block(p, k, i);
    }
    assert FreeIn(r, p, k) == Below(Count(k));
  }

  lemma NewArenaKeeps(h: Heap, k: nat, p: nat) returns (r: Heap)
    requires HeapInv(h) && k < CLASSES && h.free[k] == [] && Fresh(h, p, 1)
    ensures r == NewArena(h, k, p) && Sound(r) && (forall q :: q != p ==> NotIdle(r, q))
    ensures r.free[k] != [] && r.free[k][0] == Block(p, k, 0) && PageOf(r.free[k][0]) == p
  {
    r := NewArena(h, k, p);
    SizeTable(k);
    BlockInArena(p, k, 0);
    FreshPage(h, p, 1, 0);
    forall q ensures ArenaOk(r, q) {
      assert ArenaOk(h, q);
      NewArenaFreeIn(h, k, p, q, if q in h.arenas && h.arenas[q].Small? then h.arenas[q].cls else 0);
    }
    forall q | q != p ensures NotIdle(r, q) { assert NotIdle(h, q); }
    forall q, t ensures Apart(r, q, t) { assert Apart(h, q, t); }
    forall j, c ensures FreeOk(r, j, c) { NewArenaFree(h, k, p, j, c); }
    forall c ensures LiveOk(r, c) { assert LiveOk(h, c); FreshPage(h, p, 1, c); }
    forall q, i ensures BlockOk(r, q, i) { NewArenaBlock(h, k, p, q, i); }
    AllBlocksNoDup(p, k);
  }

  lemma AllBlocksNoDup(p: nat, k: nat)
    requires k < CLASSES
    ensures NoDup(AllBlocks(p, k, Count(k)))
  {
    forall i, j | 0 <= i < j < Count(k)
      ensures AllBlocks(p, k, Count(k))[i] != AllBlocks(p, k, Count(k))[j]
    {
      SizeTable(k);
      BlocksApart(p, k, i, j);
    }
  }

  lemma NewArenaFree(h: Heap, k: nat, p: nat, j: nat, c: nat)
    requires Sound(h) && k < CLASSES && h.free[k] == [] && Fresh(h, p, 1)
    ensures FreeOk(NewArena(h, k, p), j, c)
  {
    var r := NewArena(h, k, p);
    assert FreeOk(h, j, c);
    FreshPage(h, p, 1, c);
    if j == k && c in r.free[k] {
      var x :| 0 <= x < Count(k) && r.free[k][x] == c;
      BlockInArena(p, k, x);
    }
  }

  lemma NewArenaBlock(h: Heap, k: nat, p: nat, q: nat, i: nat)
    requires Sound(h) && k < CLASSES && h.free[k] == [] && Fresh(h, p, 1)
    ensures BlockOk(NewArena(h, k, p), q, i)
  {
    var r := NewArena(h, k, p);
    assert BlockOk(h, q, i) && ArenaOk(h, q);
    if q == p && i < Count(k) {
      BlockInArena(p, k, i);
      FreshPage(h, p, 1, Block(p, k, i));
      assert r.free[k][i] == Block(p, k, i);
    } else if q in h.arenas && h.arenas[q].Small? && i < Count(h.arenas[q].cls) {
      NewArenaFreeIn(h, k, p, q, h.arenas[q].cls);
      assert i in FreeIn(r, q, h.arenas[q].cls) <==> i in FreeIn(h, q, h.arenas[q].cls);
    }
  }

  // ---------- A large arena ----------

  function NewLarge(h: Heap, p: nat, n: nat, size: nat): Heap {
    h.(arenas := h.arenas[p := Large(n)], live := h.live[Head(p) := size])
  }

  /** DIV_ROUND_UP(size + sizeof(struct arena), PG_SIZE). */
  function PageCount(size: nat): (n: nat)
    ensures size + HEADER <= n * PAGE < size + HEADER + PAGE
  {
    (size + HEADER + PAGE - 1) / PAGE
  }

  lemma HeadInPage(p: nat)
    ensures PageOf(Head(p)) == p
  {}

  lemma NewLargeKeeps(h: Heap, p: nat, size: nat) returns (r: Heap)
    requires HeapInv(h) && size > 1024 && Fresh(h, p, PageCount(size))
    ensures r == NewLarge(h, p, PageCount(size), size) && HeapInv(r) && Head(p) !in h.live
  {
    var n := PageCount(size);
    r := NewLarge(h, p, n, size);
    HeadInPage(p);
    FreshPage(h, p, n, Head(p));
    forall q ensures ArenaOk(r, q) { NewLargeArena(h, p, size, q); }
    forall q ensures NotIdle(r, q) { assert NotIdle(h, q); }
    forall q, t ensures Apart(r, q, t) { assert Apart(h, q, t); }
    forall j, c ensures FreeOk(r, j, c) { assert FreeOk(h, j, c); FreshPage(h, p, n, c); }
    forall c ensures LiveOk(r, c) { assert LiveOk(h, c); FreshPage(h, p, n, c); }
    forall q, i: nat ensures BlockOk(r, q, i) {
      assert BlockOk(h, q, i) && ArenaOk(h, q);
      if q in h.arenas && h.arenas[q].Small? && i < Count(h.arenas[q].cls) {
        BlockInArena(q, h.arenas[q].cls, i);
      }
    }
  }

  lemma NewLargeArena(h: Heap, p: nat, size: nat, q: nat)
    requires Sound(h) && size > 1024 && Fresh(h, p, PageCount(size)) && p !in h.arenas
    ensures ArenaOk(NewLarge(h, p, PageCount(size), size), q)
  {
    assert ArenaOk(h, q);
    HeadInPage(p);
    HeadInPage(q);
    if q in h.arenas && h.arenas[q].Small? {
      assert FreeIn(NewLarge(h, p, PageCount(size), size), q, h.arenas[q].cls) == FreeIn(h, q, h.arenas[q].cls);
    }
  }

  /** mfree_page of a large arena. */
  function DropLarge(h: Heap, p: nat): Heap {
    h.(arenas := h.arenas - {p}, live := h.live - {Head(p)})
  }

  lemma DropLargeKeeps(h: Heap, p: nat) returns (r: Heap)
    requires HeapInv(h) && p in h.arenas && h.arenas[p].Large?
    ensures r == DropLarge(h, p) && HeapInv(r)
  {
    r := DropLarge(h, p);
    HeadInPage(p);
    forall q ensures ArenaOk(r, q) {
      assert ArenaOk(h, q);
      HeadInPage(q);
      if q in h.arenas && h.arenas[q].Small? {
        assert FreeIn(r, q, h.arenas[q].cls) == FreeIn(h, q, h.arenas[q].cls);
      }
    }
    forall q ensures NotIdle(r, q) { assert NotIdle(h, q); }
    forall q, t ensures Apart(r, q, t) { assert Apart(h, q, t); }
    forall j, c ensures FreeOk(r, j, c) { assert FreeOk(h, j, c); }
    forall c ensures LiveOk(r, c) { assert LiveOk(h, c); }
    forall q, i: nat ensures BlockOk(r, q, i) {
      assert BlockOk(h, q, i) && ArenaOk(h, q);
      if q in h.arenas && h.arenas[q].Small? && i < Count(h.arenas[q].cls) {
        BlockInArena(q, h.arenas[q].cls, i);
      }
    }
  }

  // ---------- A block comes back ----------

  /** list_append, and ++cnt. */
  function GiveBlock(h: Heap, b: nat): Heap
    requires PageOf(b) in h.arenas && h.arenas[PageOf(b)].Small? && h.arenas[PageOf(b)].cls < |h.free|
  {
    var p := PageOf(b);
    var k := h.arenas[p].cls;
    h.(free := h.free[k := h.free[k] + [b]], arenas := h.arenas[p := Small(k, h.arenas[p].cnt + 1)], live := h.live - {b})
  }

  lemma GiveBlockFreeIn(h: Heap, b: nat, k: nat, idx: nat, q: nat, j: nat)
    requires Sound(h) && b in h.live && InSmall(h, PageOf(b), k) && idx < Count(k) && b == Block(PageOf(b), k, idx)
    ensures FreeIn(GiveBlock(h, b), q, j) == FreeIn(h, q, j) + if q == PageOf(b) && j == k then {idx} else {}
    ensures idx !in FreeIn(h, PageOf(b), k)
  {
    var r := GiveBlock(h, b);
    assert BlockOk(h, PageOf(b), idx);
    forall i: nat | i < Count(j) && j < CLASSES
      ensures i in FreeIn(r, q, j) <==> i in FreeIn(h, q, j) || (q == PageOf(b) && j == k && i == idx)
    {
      BlockInArena(q, j, i);
      if j == k && q == PageOf(b) && Block(q, j, i) == b {
        SameBlock(q, k, i, idx);
      }
    }
  }

  lemma GiveBlockKeeps(h: Heap, b: nat) returns (r: Heap)
    requires HeapInv(h) && b in h.live && PageOf(b) in h.arenas && h.arenas[PageOf(b)].Small?
    ensures h.arenas[PageOf(b)].cls < |h.free| && r == GiveBlock(h, b) && Sound(r)
    ensures forall q :: q != PageOf(b) ==> NotIdle(r, q)
    ensures InSmall(r, PageOf(b), h.arenas[PageOf(b)].cls) && r.arenas[PageOf(b)].cnt <= Count(h.arenas[PageOf(b)].cls)
  {
    var k, idx := LiveBlock(h, b);
    r := GiveBlock(h, b);
    assert FreeOk(h, k, b) && NotIdle(h, PageOf(b));
    forall q ensures ArenaOk(r, q) { GiveBlockArena(h, b, k, idx, q); }
    forall q | q != PageOf(b) ensures NotIdle(r, q) { assert NotIdle(h, q); }
    forall q, t ensures Apart(r, q, t) { assert Apart(h, q, t); }
    forall j, c ensures FreeOk(r, j, c) { assert FreeOk(h, j, c); }
    forall c ensures LiveOk(r, c) { assert LiveOk(h, c); }
    forall q, i ensures BlockOk(r, q, i) { GiveBlockBlock(h, b, k, q, i); }
  }

  lemma GiveBlockArena(h: Heap, b: nat, k: nat, idx: nat, q: nat)
    requires Sound(h) && b in h.live && InSmall(h, PageOf(b), k) && idx < Count(k) && b == Block(PageOf(b), k, idx)
    ensures ArenaOk(GiveBlock(h, b), q)
  {
    assert ArenaOk(h, q);
    HeadInPage(q);
    GiveBlockFreeIn(h, b, k, idx, q, if q in h.arenas && h.arenas[q].Small? then h.arenas[q].cls else 0);
  }

  lemma GiveBlockBlock(h: Heap, b: nat, k: nat, q: nat, i: nat)
    requires Sound(h) && b in h.live && InSmall(h, PageOf(b), k)
    ensures BlockOk(GiveBlock(h, b), q, i)
  {
    assert BlockOk(h, q, i) && ArenaOk(h, q);
    if q in h.arenas && h.arenas[q].Small? && i < Count(h.arenas[q].cls) {
      BlockInArena(q, h.arenas[q].cls, i);
    }
  }

  // ---------- An idle arena goes back ----------

  /** The free list without the blocks of the arena in page p. */
  function WithoutPage(list: seq<nat>, p: nat): (r: seq<nat>)
    ensures forall b :: b in r <==> b in list && PageOf(b) != p
    ensures NoDup(list) ==> NoDup(r)
  {
    if list == [] then [] else
      assert list == [list[0]] + list[1..];
      var rest := WithoutPage(list[1..], p);
      if PageOf(list[0]) == p then rest else [list[0]] + rest
  }

  function DropArena(h: Heap, p: nat): Heap
    requires p in h.arenas && h.arenas[p].Small? && h.arenas[p].cls < |h.free|
  {
    var k := h.arenas[p].cls;
    h.(arenas := h.arenas - {p}, free := h.free[k := WithoutPage(h.free[k], p)])
  }

  /** When `cnt` says that every block of an arena is free, every block is on the free list: the
      ASSERTs of the removal loop hold. */
  lemma IdleArena(h: Heap, p: nat, k: nat, idx: nat)
    requires Sound(h) && InSmall(h, p, k) && h.arenas[p].cnt == Count(k) && idx < Count(k)
    ensures Block(p, k, idx) in h.free[k] && Block(p, k, idx) !in h.live
  {
    assert ArenaOk(h, p);
    FreeInBound(h, p, k);
    assert idx in FreeIn(h, p, k);
    assert BlockOk(h, p, idx);
  }

  lemma DropArenaFreeIn(h: Heap, p: nat, q: nat, j: nat)
    requires Sound(h) && p in h.arenas && h.arenas[p].Small? && h.arenas[p].cls < |h.free| && q != p
    ensures FreeIn(DropArena(h, p), q, j) == FreeIn(h, q, j)
  {
    forall i: nat | i < Count(j) && j < CLASSES
      ensures i in FreeIn(DropArena(h, p), q, j) <==> i in FreeIn(h, q, j)
    {
      BlockInArena(q, j, i);
    }
  }

  lemma DropArenaKeeps(h: Heap, p: nat, k: nat) returns (r: Heap)
    requires Sound(h) && InSmall(h, p, k) && h.arenas[p].cnt == Count(k)
    requires forall q :: q != p ==> NotIdle(h, q)
    ensures k < |h.free| && r == DropArena(h, p) && HeapInv(r)
  {
    r := DropArena(h, p);
    forall q ensures ArenaOk(r, q) && NotIdle(r, q) {
      assert ArenaOk(h, q) && (q != p ==> NotIdle(h, q));
      if q != p {
        DropArenaFreeIn(h, p, q, if q in h.arenas && h.arenas[q].Small? then h.arenas[q].cls else 0);
      }
    }
    forall q, t ensures Apart(r, q, t) { assert Apart(h, q, t); }
    forall j, c ensures FreeOk(r, j, c) { assert FreeOk(h, j, c); }
    forall c ensures LiveOk(r, c) { DropArenaLive(h, p, k, c); }
    forall q, i: nat ensures BlockOk(r, q, i) {
      assert BlockOk(h, q, i) && ArenaOk(h, q);
      if q != p && q in h.arenas && h.arenas[q].Small? && i < Count(h.arenas[q].cls) {
        BlockInArena(q, h.arenas[q].cls, i);
      }
    }
  }

  lemma DropArenaLive(h: Heap, p: nat, k: nat, c: nat)
    requires Sound(h) && InSmall(h, p, k) && h.arenas[p].cnt == Count(k)
    ensures k < |h.free| && LiveOk(DropArena(h, p), c)
  {
    assert LiveOk(h, c);
    if c in h.live && PageOf(c) == p {
      var k', idx := LiveBlock(h, c);
      IdleArena(h, p, k, idx);
    }
  }

  // ---------- sys_malloc and sys_free ----------

  /** How many pages sys_malloc asks malloc_page for; None when malloc_page is not called. */
  function Wanted(h: Heap, size: nat, poolSize: nat): Option<nat>
    requires |h.free| == CLASSES
  {
    if size == 0 || size >= poolSize then None
    else if size > 1024 then Some(PageCount(size))
    else if h.free[ClassOf(size)] == [] then Some(1)
    else None
  }

  /** sys_malloc; `got` is malloc_page's answer, when it is called. ASSERT(pg_cnt < 3840) there. */
  ghost function Malloc(h: Heap, size: nat, poolSize: nat, got: Option<nat>): (r: Outcome<(Heap, Option<nat>)>)
    requires HeapInv(h) && (Wanted(h, size, poolSize).Some? && got.Some? ==> Fresh(h, got.value, Wanted(h, size, poolSize).value))
    ensures r.Ok? ==> HeapInv(r.value.0)
  {
    if size == 0 || size >= poolSize then Ok((h, None))
    else if size > 1024 then
      if PageCount(size) >= 3840 then Panic
      else match got
        case None => Ok((h, None))
        case Some(p) => NewLargeInv(h, p, size); Ok((NewLarge(h, p, PageCount(size), size), Some(Head(p))))
    else
      var k := ClassOf(size);
      ClassFits(size);
      if h.free[k] == [] then
        match got
        case None => Ok((h, None))
        case Some(p) =>
          NewArenaInv(h, k, p, size);
          Ok((TakeBlock(NewArena(h, k, p), k, size), Some(Block(p, k, 0))))
      else
        TakeBlockInv(h, k, size);
        Ok((TakeBlock(h, k, size), Some(h.free[k][0])))
  }

  lemma ClassFits(size: nat)
    requires size <= 1024
    ensures ClassOf(size) < CLASSES && size <= BlockSize(ClassOf(size))
    ensures ClassOf(size) > 0 ==> BlockSize(ClassOf(size) - 1) < size
  {
    SizeTable(ClassOf(size));
    if ClassOf(size) > 0 {
      SizeTable(ClassOf(size) - 1);
    }
  }

  lemma NewLargeInv(h: Heap, p: nat, size: nat)
    requires HeapInv(h) && size > 1024 && Fresh(h, p, PageCount(size))
    ensures HeapInv(NewLarge(h, p, PageCount(size), size)) && Head(p) !in h.live
  {
    var r := NewLargeKeeps(h, p, size);
  }

  lemma TakeBlockInv(h: Heap, k: nat, size: nat)
    requires Sound(h) && k < CLASSES && h.free[k] != [] && size <= BlockSize(k)
    requires forall p :: p != PageOf(h.free[k][0]) ==> NotIdle(h, p)
    ensures InSmall(h, PageOf(h.free[k][0]), k) && h.arenas[PageOf(h.free[k][0])].cnt > 0
    ensures HeapInv(TakeBlock(h, k, size)) && h.free[k][0] !in h.live
  {
    var r := TakeBlockKeeps(h, k, size);
  }

  lemma NewArenaInv(h: Heap, k: nat, p: nat, size: nat)
    requires HeapInv(h) && k < CLASSES && h.free[k] == [] && Fresh(h, p, 1) && size <= BlockSize(k)
    ensures var a := NewArena(h, k, p);
            && a.free[k] != [] && a.free[k][0] == Block(p, k, 0) && PageOf(a.free[k][0]) == p
            && InSmall(a, p, k) && a.arenas[p].cnt > 0 && HeapInv(TakeBlock(a, k, size)) && Block(p, k, 0) !in h.live
  {
    var a := NewArenaKeeps(h, k, p);
    TakeBlockInv(a, k, size);
  }

  /** The pages sys_free hands to mfree_page. */
  ghost function Released(h: Heap, b: nat): Option<(nat, nat)>
    requires HeapInv(h) && b in h.live
  {
    LiveInArena(h, b);
    match h.arenas[PageOf(b)]
    case Large(n) => Some((PageOf(b), n))
    case Small(k, cnt) => if cnt + 1 == Count(k) then Some((PageOf(b), 1)) else None
  }

  /** sys_free of a live pointer. */
  ghost function Free(h: Heap, b: nat): (r: Heap)
    requires HeapInv(h) && b in h.live
    ensures HeapInv(r)
  {
    LiveInArena(h, b);
    var p := PageOf(b);
    match h.arenas[p]
    case Large(_) => DropLargeInv(h, p); DropLarge(h, p)
    case Small(k, cnt) =>
      GiveBlockInv(h, b);
      if cnt + 1 == Count(k) then DropArenaInv(h, b); DropArena(GiveBlock(h, b), p) else GiveBlock(h, b)
  }

  lemma DropLargeInv(h: Heap, p: nat)
    requires HeapInv(h) && p in h.arenas && h.arenas[p].Large?
    ensures HeapInv(DropLarge(h, p))
  {
    var r := DropLargeKeeps(h, p);
  }

  lemma GiveBlockInv(h: Heap, b: nat)
    requires HeapInv(h) && b in h.live && PageOf(b) in h.arenas && h.arenas[PageOf(b)].Small?
    ensures h.arenas[PageOf(b)].cls < |h.free| && Sound(GiveBlock(h, b))
    ensures h.arenas[PageOf(b)].cnt + 1 != Count(h.arenas[PageOf(b)].cls) ==> HeapInv(GiveBlock(h, b))
  {
    var r := GiveBlockKeeps(h, b);
    forall q | h.arenas[PageOf(b)].cnt + 1 != Count(h.arenas[PageOf(b)].cls)
      ensures NotIdle(r, q)
    {
      assert q != PageOf(b) ==> NotIdle(r, q);
    }
  }

  lemma DropArenaInv(h: Heap, b: nat)
    requires HeapInv(h) && b in h.live && PageOf(b) in h.arenas && h.arenas[PageOf(b)].Small? && h.arenas[PageOf(b)].cls < |h.free|
    requires h.arenas[PageOf(b)].cnt + 1 == Count(h.arenas[PageOf(b)].cls)
    ensures HeapInv(DropArena(GiveBlock(h, b), PageOf(b)))
  {
    var g := GiveBlockKeeps(h, b);
    var r := DropArenaKeeps(g, PageOf(b), h.arenas[PageOf(b)].cls);
  }

  // ---------- What callers see ----------

  /** A successful sys_malloc returns a pointer nobody holds; a failed one changes nothing. */
  lemma MallocAnswers(h: Heap, size: nat, poolSize: nat, got: Option<nat>)
    requires HeapInv(h) && (Wanted(h, size, poolSize).Some? && got.Some? ==> Fresh(h, got.value, Wanted(h, size, poolSize).value))
    requires Malloc(h, size, poolSize, got).Ok?
    ensures var (r, b) := Malloc(h, size, poolSize, got).value;
            && (b.None? ==> r == h)
            && (b.Some? ==> b.value !in h.live && r.live == h.live[b.value := size])
            && (b.None? <==> size == 0 || size >= poolSize || (Wanted(h, size, poolSize).Some? && got.None?))
  {
    if 0 < size < poolSize {
      if size > 1024 {
        if got.Some? && PageCount(size) < 3840 {
          NewLargeInv(h, got.value, size);
        }
      } else {
        ClassFits(size);
        if h.free[ClassOf(size)] != [] {
          TakeBlockInv(h, ClassOf(size), size);
        } else if got.Some? {
          NewArenaInv(h, ClassOf(size), got.value, size);
        }
      }
    }
  }

  /** Which class a size belongs to: the smallest whose blocks are big enough. */
  lemma ClassIs(size: nat, k: nat)
    requires k < CLASSES && size <= BlockSize(k) && (k == 0 || BlockSize(k - 1) < size)
    ensures size <= 1024 && ClassOf(size) == k
  {
    SizeTable(k);
    if k > 0 {
      SizeTable(k - 1);
    }
  }

  /** The pointer for a small size is the oldest block on the free list of its class; when the list is
      empty, it is the first of a new arena, and the list has the others in order. */
  lemma MallocSmallBlock(h: Heap, size: nat, poolSize: nat, got: Option<nat>, k: nat)
    requires HeapInv(h) && (Wanted(h, size, poolSize).Some? && got.Some? ==> Fresh(h, got.value, Wanted(h, size, poolSize).value))
    requires k < CLASSES && 0 < size <= BlockSize(k) && (k == 0 || BlockSize(k - 1) < size) && size < poolSize
    requires h.free[k] == [] ==> got.Some?
    ensures Wanted(h, size, poolSize) == (if h.free[k] == [] then Some(1) else None) && Malloc(h, size, poolSize, got).Ok?
    ensures var (r, b) := Malloc(h, size, poolSize, got).value;
            if h.free[k] != [] then
              var p := PageOf(h.free[k][0]);
              && b == Some(h.free[k][0]) && r.free == h.free[k := h.free[k][1..]]
              && p in h.arenas && p in r.arenas && h.arenas[p].Small? && r.arenas[p].Small? && r.arenas == h.arenas[p := r.arenas[p]]
              && r.arenas[p].cls == k && r.arenas[p].cnt + 1 == h.arenas[p].cnt
            else
              && b == Some(4096 * got.value + 12) && got.value in r.arenas && r.arenas == h.arenas[got.value := r.arenas[got.value]]
              && r.arenas[got.value].Small? && r.arenas[got.value].cls == k && r.arenas[got.value].cnt + 1 == Count(k)
              && |r.free| == CLASSES && (forall j :: 0 <= j < CLASSES && j != k ==> r.free[j] == h.free[j])
              && |r.free[k]| + 1 == Count(k)
              && forall i :: 0 <= i < |r.free[k]| ==> r.free[k][i] == 4096 * got.value + 12 + (i + 1) * BlockSize(k)
  {
    ClassIs(size, k);
    SizeTable(k);
    hide HeapInv, ClassOf;
    if h.free[k] != [] {
      TakeBlockInv(h, k, size) by { HeapFacts(h); }
    } else {
      NewArenaInv(h, k, got.value, size);
    }
  }

  lemma HeapFacts(h: Heap)
    requires HeapInv(h)
    ensures Sound(h) && forall p {:trigger NotIdle(h, p)} :: NotIdle(h, p)
  {}

  /** The pointer for a large size lies behind the header in the first of as many pages as it takes. */
  lemma MallocLargeBlock(h: Heap, size: nat, poolSize: nat, got: Option<nat>)
    requires HeapInv(h) && (Wanted(h, size, poolSize).Some? && got.Some? ==> Fresh(h, got.value, Wanted(h, size, poolSize).value))
    requires 1024 < size < poolSize && got.Some? && Malloc(h, size, poolSize, got).Ok?
    ensures var (r, b) := Malloc(h, size, poolSize, got).value;
            && b == Some(4096 * got.value + 12) && r.free == h.free
            && got.value in r.arenas && r.arenas == h.arenas[got.value := r.arenas[got.value]] && r.arenas[got.value].Large?
            && size + 12 <= 4096 * r.arenas[got.value].pages < size + 12 + 4096
            && Wanted(h, size, poolSize) == Some(r.arenas[got.value].pages)
  {
    hide HeapInv;
  }

  /** Exactly which requests fail the ASSERT on the page count: those that sys_malloc lets through but
      that need 3840 pages or more. */
  lemma MallocPanicsIff(h: Heap, size: nat, poolSize: nat, got: Option<nat>)
    requires HeapInv(h) && (Wanted(h, size, poolSize).Some? && got.Some? ==> Fresh(h, got.value, Wanted(h, size, poolSize).value))
    ensures Malloc(h, size, poolSize, got).Panic? <==> size < poolSize && size > 3839 * PAGE - HEADER
  {
    assert PageCount(size) >= 3840 <==> size > 3839 * PAGE - HEADER;
  }

  /** sys_free ends exactly one allocation, and gives back exactly the arena that has become idle. */
  lemma FreeAnswers(h: Heap, b: nat)
    requires HeapInv(h) && b in h.live
    ensures PageOf(b) in h.arenas
    ensures var r := Free(h, b);
            && r.live == h.live - {b}
            && r.arenas.Keys == h.arenas.Keys - (if Released(h, b).Some? then {PageOf(b)} else {})
            && (Released(h, b).Some? ==> Released(h, b) == Some((PageOf(b), Span(h.arenas[PageOf(b)]))))
            && forall p :: p in r.arenas && p != PageOf(b) ==> r.arenas[p] == h.arenas[p]
  {
    LiveInArena(h, b);
    assert LiveOk(h, b);
    if h.arenas[PageOf(b)].Small? {
      GiveBlockInv(h, b);
    }
  }

  /** An arena goes back exactly when its last live block does. */
  lemma ReleasedIff(h: Heap, b: nat)
    requires HeapInv(h) && b in h.live
    ensures Released(h, b).Some? <==> forall c :: c in h.live && PageOf(c) == PageOf(b) ==> c == b
  {
    LiveInArena(h, b);
    var p := PageOf(b);
    if h.arenas[p].Large? {
      forall c | c in h.live && PageOf(c) == p
        ensures c == b
      {
        assert LiveOk(h, c) && LiveOk(h, b);
      }
    } else {
      var k, idx := LiveBlock(h, b);
      if h.arenas[p].cnt + 1 == Count(k) {
        LastOfArena(h, b, k);
      } else {
        OthersInArena(h, b, k, idx);
      }
    }
  }

  lemma LastOfArena(h: Heap, b: nat, k: nat)
    requires HeapInv(h) && b in h.live && InSmall(h, PageOf(b), k) && h.arenas[PageOf(b)].cnt + 1 == Count(k)
    ensures forall c :: c in h.live && PageOf(c) == PageOf(b) ==> c == b
  {
    GiveBlockInv(h, b);
    var g := GiveBlock(h, b);
    hide HeapInv, Sound;
    forall c | c in h.live && PageOf(c) == PageOf(b) && c != b
      ensures false
    {
      var j, i := LiveBlock(g, c);
      IdleArena(g, PageOf(b), k, i);
    }
  }

  lemma OthersInArena(h: Heap, b: nat, k: nat, idx: nat)
    requires HeapInv(h) && b in h.live && InSmall(h, PageOf(b), k) && h.arenas[PageOf(b)].cnt + 1 != Count(k)
    requires idx < Count(k) && b == Block(PageOf(b), k, idx)
    ensures exists c :: c in h.live && PageOf(c) == PageOf(b) && c != b
  {
    var p := PageOf(b);
    OneLiveBlock(h, p, k, idx);
    var i: nat :| i < Count(k) && i != idx && Block(p, k, i) in h.live;
    BlockInArena(p, k, i);
    if Block(p, k, i) == b {
      SameBlock(p, k, i, idx);
    }
  }

  lemma OneLiveBlock(h: Heap, p: nat, k: nat, idx: nat)
    requires HeapInv(h) && InSmall(h, p, k) && idx < Count(k) && Block(p, k, idx) in h.live
    ensures (forall i: nat :: i < Count(k) && i != idx ==> Block(p, k, i) !in h.live) ==> h.arenas[p].cnt + 1 == Count(k)
  {
    assert ArenaOk(h, p);
    if forall i: nat :: i < Count(k) && i != idx ==> Block(p, k, i) !in h.live {
      forall i: nat | i < Count(k)
        ensures i in FreeIn(h, p, k) <==> i != idx
      {
        assert BlockOk(h, p, i);
      }
      assert FreeIn(h, p, k) == Below(Count(k)) - {idx};
    }
  }

  /** The freed block goes to the end of the free list of its class; when that makes its arena idle, the
      arena's blocks leave the list instead. No other list changes. */
  lemma FreeBlock(h: Heap, b: nat)
    requires HeapInv(h) && b in h.live
    ensures PageOf(b) in h.arenas && |Free(h, b).free| == |h.free| == CLASSES
    ensures var r := Free(h, b);
            match h.arenas[PageOf(b)]
            case Large(_) => r.free == h.free
            case Small(k, cnt) =>
              && k < CLASSES && (forall j :: 0 <= j < CLASSES && j != k ==> r.free[j] == h.free[j])
              && if Released(h, b) == None then
                   r.free[k] == h.free[k] + [b] && r.arenas == h.arenas[PageOf(b) := Small(k, cnt + 1)]
                 else forall c :: c in r.free[k] <==> c in h.free[k] && PageOf(c) != PageOf(b)
  {
    LiveInArena(h, b);
    assert LiveOk(h, b);
    if h.arenas[PageOf(b)].Small? {
      GiveBlockInv(h, b);
    }
  }

  lemma WithoutNothing(list: seq<nat>, p: nat)
    requires forall b :: b in list ==> PageOf(b) != p
    ensures WithoutPage(list, p) == list
  {
    if list != [] {
      WithoutNothing(list[1..], p);
    }
  }

  lemma WithoutAll(list: seq<nat>, p: nat)
    requires forall b :: b in list ==> PageOf(b) == p
    ensures WithoutPage(list, p) == []
  {
    if list != [] {
      WithoutAll(list[1..], p);
    }
  }

  lemma ArenaUndone(h: Heap, k: nat, size: nat, p: nat)
    requires HeapInv(h) && k < CLASSES && h.free[k] == [] && Fresh(h, p, 1) && size <= BlockSize(k)
    ensures var a := NewArena(h, k, p);
            && a.free[k] != [] && InSmall(a, PageOf(a.free[k][0]), k) && a.arenas[PageOf(a.free[k][0])].cnt > 0
            && var m := TakeBlock(a, k, size);
            && HeapInv(m) && Block(p, k, 0) in m.live
            && Free(m, Block(p, k, 0)).arenas == h.arenas && Free(m, Block(p, k, 0)).free == h.free
  {
    NewArenaInv(h, k, p, size);
    FreshPage(h, p, 1, 0);
    SizeTable(k);
    var a := NewArena(h, k, p);
    var m := TakeBlock(a, k, size);
    BlockInArena(p, k, 0);
    assert m.arenas[p] == Small(k, Count(k) - 1);
    GiveBlockInv(m, Block(p, k, 0));
    var g := GiveBlock(m, Block(p, k, 0));
    forall b | b in g.free[k]
      ensures PageOf(b) == p
    {
      assert b == Block(p, k, 0) || b in a.free[k];
      var i :| 0 <= i < Count(k) && a.free[k][i] == b;
      BlockInArena(p, k, i);
    }
    WithoutAll(g.free[k], p);
    assert Free(m, Block(p, k, 0)).free == h.free;
  }

  lemma BlockUndone(h: Heap, k: nat, size: nat)
    requires HeapInv(h) && k < CLASSES && h.free[k] != [] && size <= BlockSize(k)
    ensures InSmall(h, PageOf(h.free[k][0]), k) && h.arenas[PageOf(h.free[k][0])].cnt > 0
    ensures var (m, b) := (TakeBlock(h, k, size), h.free[k][0]);
            && HeapInv(m) && b in m.live && Free(m, b).arenas == h.arenas
            && Free(m, b).free == h.free[k := h.free[k][1..] + [b]] && multiset(h.free[k][1..] + [b]) == multiset(h.free[k])
  {
    TakeBlockInv(h, k, size);
    assert NotIdle(h, PageOf(h.free[k][0]));
    assert h.free[k] == [h.free[k][0]] + h.free[k][1..];
  }

  lemma LargeUndone(h: Heap, p: nat, size: nat)
    requires HeapInv(h) && size > 1024 && Fresh(h, p, PageCount(size))
    ensures var m := NewLarge(h, p, PageCount(size), size);
            && HeapInv(m) && Head(p) in m.live && Free(m, Head(p)).arenas == h.arenas && Free(m, Head(p)).free == h.free
  {
    NewLargeInv(h, p, size);
    FreshPage(h, p, PageCount(size), 0);
    HeadInPage(p);
    var m := NewLarge(h, p, PageCount(size), size);
    assert m.arenas[p] == Large(PageCount(size));
  }

  /** Freeing at once what was just allocated restores the arenas and, up to their order, the free
      lists. */
  lemma FreeUndoesMalloc(h: Heap, size: nat, poolSize: nat, got: Option<nat>)
    requires HeapInv(h) && (Wanted(h, size, poolSize).Some? && got.Some? ==> Fresh(h, got.value, Wanted(h, size, poolSize).value))
    requires Malloc(h, size, poolSize, got).Ok? && Malloc(h, size, poolSize, got).value.1.Some?
    ensures var (m, b) := Malloc(h, size, poolSize, got).value;
            && HeapInv(m) && b.value in m.live
            && var r := Free(m, b.value);
            && r.arenas == h.arenas && r.live == h.live
            && forall k :: 0 <= k < CLASSES ==> multiset(r.free[k]) == multiset(h.free[k])
  {
    MallocAnswers(h, size, poolSize, got);
    ClassFits(if size <= 1024 then size else 0);
    var (m, b) := Malloc(h, size, poolSize, got).value;
    FreeAnswers(m, b.value);
    if size > 1024 {
      LargeUndone(h, got.value, size);
    } else if h.free[ClassOf(size)] == [] {
      ArenaUndone(h, ClassOf(size), size, got.value);
    } else {
      BlockUndone(h, ClassOf(size), size);
    }
  }

  // ---------- Any run ----------

  datatype Event =
    | Alloc(size: nat, got: Option<nat>)   // sys_malloc, with what malloc_page answers if it is called
    | Release(b: nat)                      // sys_free of a live pointer

  /** malloc_page answers with pages that no arena lies in; each live pointer is freed once. */
  ghost predicate Possible(h: Heap, e: Event, poolSize: nat)
    requires HeapInv(h)
  {
    match e
    case Alloc(size, got) => Wanted(h, size, poolSize).Some? && got.Some? ==> Fresh(h, got.value, Wanted(h, size, poolSize).value)
    case Release(b) => b in h.live
  }

  ghost function Perform(h: Heap, e: Event, poolSize: nat): (r: Outcome<Heap>)
    requires HeapInv(h) && Possible(h, e, poolSize)
    ensures r.Ok? ==> HeapInv(r.value)
  {
    match e
    case Alloc(size, got) =>
      var answer :- Malloc(h, size, poolSize, got);
      Ok(answer.0)
    case Release(b) => Ok(Free(h, b))
  }

  /** Each event of a run is the routine of its name. */
  lemma PerformIs(h: Heap, e: Event, poolSize: nat)
    requires HeapInv(h) && Possible(h, e, poolSize)
    ensures match e
            case Alloc(size, got) =>
              if size < poolSize && size > 3839 * PAGE - HEADER then Perform(h, e, poolSize).Panic?
              else Malloc(h, size, poolSize, got).Ok? && Perform(h, e, poolSize) == Ok(Malloc(h, size, poolSize, got).value.0)
            case Release(b) => b in h.live && Perform(h, e, poolSize) == Ok(Free(h, b))
  {
    if e.Alloc? {
      MallocPanicsIff(h, e.size, poolSize, e.got);
    }
  }

  /** r is reached from h by the events. */
  ghost predicate Leads(h: Heap, es: seq<Event>, poolSize: nat, r: Heap)
    requires HeapInv(h)
    decreases |es|
  {
    if es == [] then r == h
    else
      && Possible(h, es[0], poolSize) && Perform(h, es[0], poolSize).Ok?
      && Leads(Perform(h, es[0], poolSize).value, es[1..], poolSize, r)
  }

  /** After any run of sys_malloc and sys_free: the live allocations are big enough for what was asked,
      lie in arenas and do not overlap; a block on a free list is a block of an arena of its class,
      which block2arena finds, is there once and is nobody's; and each `cnt` is right. */
  lemma {:induction false} HeapRunsAreSafe(h: Heap, es: seq<Event>, poolSize: nat, r: Heap)
    requires HeapInv(h) && Leads(h, es, poolSize, r)
    ensures HeapInv(r)
    ensures forall a, b :: a in r.live && b in r.live && a < b ==> a + r.live[a] <= b
    ensures forall b :: b in r.live ==> PageOf(b) in r.arenas && PageOf(b) * PAGE + HEADER <= b && b + r.live[b] <= (PageOf(b) + Span(r.arenas[PageOf(b)])) * PAGE
    ensures forall k, b :: 0 <= k < CLASSES && b in r.free[k] ==>
              && InSmall(r, PageOf(b), k) && multiset(r.free[k])[b] == 1 && b !in r.live
    ensures forall p :: p in r.arenas && r.arenas[p].Small? ==>
              && r.arenas[p].cls < CLASSES && r.arenas[p].cnt == |FreeIn(r, p, r.arenas[p].cls)| < Count(r.arenas[p].cls)
    decreases |es|
  {
    if es == [] {
      forall a, b | a in r.live && b in r.live && a < b
        ensures a + r.live[a] <= b
      {
        LiveApart(r, a, b);
      }
      forall b | b in r.live
        ensures PageOf(b) in r.arenas && PageOf(b) * PAGE + HEADER <= b && b + r.live[b] <= (PageOf(b) + Span(r.arenas[PageOf(b)])) * PAGE
      {
        LiveInArena(r, b);
      }
      forall k, b | 0 <= k < CLASSES && b in r.free[k]
        ensures InSmall(r, PageOf(b), k) && multiset(r.free[k])[b] == 1 && b !in r.live
      {
        assert FreeOk(r, k, b);
        OnceInList(r.free[k], b);
      }
      forall p | p in r.arenas && r.arenas[p].Small?
        ensures r.arenas[p].cls < CLASSES && r.arenas[p].cnt == |FreeIn(r, p, r.arenas[p].cls)| < Count(r.arenas[p].cls)
      {
        assert ArenaOk(r, p) && NotIdle(r, p);
      }
    } else {
      HeapRunsAreSafe(Perform(h, es[0], poolSize).value, es[1..], poolSize, r);
    }
  }

  lemma {:induction false} OnceInList(list: seq<nat>, b: nat)
    requires NoDup(list) && b in list
    ensures multiset(list)[b] == 1
  {
    NoDupParts(list);
    assert list == [list[0]] + list[1..];
    if b != list[0] {
      OnceInList(list[1..], b);
    } else {
      assert multiset(list[1..])[b] == 0;
    }
  }

  lemma EmptyHeap()
    ensures HeapInv(Heap(map[], [[], [], [], [], [], [], []], map[]))
  {
    var h := Heap(map[], [[], [], [], [], [], [], []], map[]);
    forall k, b ensures FreeOk(h, k, b) {}
  }
}
