/**
  sys_malloc and sys_free of a kernel thread as they run (kernel/memory.c:440-578), on top of the page
  allocator: the arenas are pages that malloc_page handed out, and every page of an arena is mapped.
 */
module KernelHeap {
  import opened Outcomes
  import opened Bitmap
  import opened Paging
  import opened PageAllocator
  import opened PageRequests
  import opened MemoryManager
  import opened Heap

  // ---------- The heap's pages stay mapped ----------

  /** Page p is a page of the kernel heap that malloc_page gave away and that is no page directory. */
  ghost predicate HeldUse(s: Space, p: nat) {
    KernelPage(p) in s.owner.Values && forall f :: f in s.owner && s.owner[f] == KernelPage(p) ==> f !in s.uVaddr
  }

  lemma HeldUseIff(s: Space, p: nat)
    requires Inv(s) && HeapPage(p)
    ensures KernelHeld(s, p) <==> HeldUse(s, p)
  {
    if HeldUse(s, p) {
      var f :| f in s.owner && s.owner[f] == KernelPage(p);
      KernelWalk(s, KERNEL_DIR, p, f);
    }
    if KernelHeld(s, p) {
      var f := Walk(s.mem, KERNEL_DIR, p).value;
      KernelWalk(s, KERNEL_DIR, p, f);
      forall g | g in s.owner && s.owner[g] == KernelPage(p)
        ensures g == f
      {
        OneFramePerUse(s, f, g);
      }
    }
  }

  /** malloc_page keeps what is held, and what it returns was not held. */
  lemma MallocKeepsHeld(s: Space, n: nat, p: nat)
    requires Inv(s) && n > 0 && KernelHeld(s, p)
    ensures KernelHeld(MallocKernel(s, n).s, p)
    ensures MallocKernel(s, n).Got? ==> !(MallocKernel(s, n).page <= p < MallocKernel(s, n).page + n)
  {
    hide MapKernelPages, Inv, FreeCount, Extends;
    HeldUseIff(s, p);
    if Fit(s.kVaddr, n).Some? {
      var b := Fit(s.kVaddr, n).value;
      ReserveKernelKeepsInv(s, b, n);
      var u := ReserveKernel(s, b, n);
      MapKernelEffect(u, KERNEL_HEAP + b, n, Min(n, FreeCount(s.kPool)));
      ExtendsKeepsHeld(u, MallocKernel(s, n).s, p);
      HeldIsNoHole(u, p);
    }
  }

  lemma HeldIsNoHole(u: Space, p: nat)
    requires HeldUse(u, p)
    ensures !KernelHole(u, p)
  {}

  lemma ExtendsKeepsHeld(u: Space, r: Space, p: nat)
    requires Inv(r) && Extends(u, r) && r.uVaddr == u.uVaddr && HeapPage(p) && HeldUse(u, p)
    ensures KernelHeld(r, p)
  {
    var f :| f in u.owner && u.owner[f] == KernelPage(p);
    assert Kept(u, r, f);
    KernelWalk(r, KERNEL_DIR, p, f);
  }

  /** mfree_page takes nothing but the pages it is given. */
  lemma MfreeKeepsHeld(s: Space, page: nat, n: nat, p: nat)
    requires Inv(s) && AllKernelHeld(s, page, n) && n > 0 && KernelHeld(s, p) && !(page <= p < page + n)
    ensures KernelHeld(MfreeKernel(s, page, n), p)
  {
    UnmapKernelEffect(s, page, n);
    var r := MfreeKernel(s, page, n);
    var f := Walk(s.mem, KERNEL_DIR, p).value;
    KernelWalk(s, KERNEL_DIR, p, f);
    assert KernelPage(p) !in KernelUses(page, n);
    KernelWalk(r, KERNEL_DIR, p, f);
  }

  /** Every page of every arena is held. */
  ghost predicate PageHeld(s: Space, arenas: map<nat, Arena>, p: nat, q: nat) {
    p in arenas && p <= q < p + Span(arenas[p]) ==> KernelHeld(s, q)
  }

  ghost predicate AllHeld(s: Space, arenas: map<nat, Arena>) {
    forall p, q: nat {:trigger PageHeld(s, arenas, p, q)} :: PageHeld(s, arenas, p, q)
  }

  /** After malloc_page the arenas are still held; the pages it returned are held too, and fresh. */
  lemma AfterMalloc(s: Space, h: Heap, n: nat)
    requires Inv(s) && n > 0 && HeapInv(h) && AllHeld(s, h.arenas)
    ensures AllHeld(MallocKernel(s, n).s, h.arenas)
    ensures MallocKernel(s, n).Got? ==>
              Fresh(h, MallocKernel(s, n).page, n) && AllKernelHeld(MallocKernel(s, n).s, MallocKernel(s, n).page, n)
  {
    var r := MallocKernel(s, n).s;
    forall p: nat, q: nat
      ensures PageHeld(r, h.arenas, p, q)
    {
      assert PageHeld(s, h.arenas, p, q);
      if p in h.arenas && p <= q < p + Span(h.arenas[p]) {
        MallocKeepsHeld(s, n, q);
      }
    }
    if MallocKernel(s, n).Got? {
      MfreeUndoesMallocKernel(s, n);
      forall p | p in h.arenas
        ensures p + Span(h.arenas[p]) <= MallocKernel(s, n).page || MallocKernel(s, n).page + n <= p
      {
        ArenaElsewhere(s, h, n, p);
      }
    }
  }

  lemma ArenaElsewhere(s: Space, h: Heap, n: nat, p: nat)
    requires Inv(s) && n > 0 && HeapInv(h) && AllHeld(s, h.arenas) && MallocKernel(s, n).Got? && p in h.arenas
    ensures p + Span(h.arenas[p]) <= MallocKernel(s, n).page || MallocKernel(s, n).page + n <= p
  {
    var page := MallocKernel(s, n).page;
    assert ArenaOk(h, p);
    if p < page + n && page < p + Span(h.arenas[p]) {
      var q := if p < page then page else p;
      assert PageHeld(s, h.arenas, p, q);
      MallocKeepsHeld(s, n, q);
    }
  }

  lemma AddArena(s: Space, arenas: map<nat, Arena>, p: nat, a: Arena)
    requires AllHeld(s, arenas) && AllKernelHeld(s, p, Span(a))
    ensures AllHeld(s, arenas[p := a])
  {
    var after := arenas[p := a];
    forall p': nat, q: nat
      ensures PageHeld(s, after, p', q)
    {
      assert PageHeld(s, arenas, p', q);
    }
  }

  /** After mfree_page of one arena the others are still held. */
  lemma AfterMfree(s: Space, h: Heap, p: nat, arenas: map<nat, Arena>)
    requires Inv(s) && HeapInv(h) && AllHeld(s, h.arenas) && p in h.arenas
    requires arenas.Keys == h.arenas.Keys - {p} && forall q :: q in arenas ==> arenas[q] == h.arenas[q]
    ensures Span(h.arenas[p]) > 0 && AllKernelHeld(s, p, Span(h.arenas[p])) && AllHeld(MfreeKernel(s, p, Span(h.arenas[p])), arenas)
  {
    var n := Span(h.arenas[p]);
    assert ArenaOk(h, p);
    forall q: nat | p <= q < p + n
      ensures KernelHeld(s, q)
    {
      assert PageHeld(s, h.arenas, p, q);
    }
    forall p': nat, q: nat
      ensures PageHeld(MfreeKernel(s, p, n), arenas, p', q)
    {
      if p' in arenas && p' <= q < p' + Span(arenas[p']) {
        assert PageHeld(s, h.arenas, p', q);
        assert Apart(h, p, p') && Apart(h, p', p);
        MfreeKeepsHeld(s, p, n, q);
      }
    }
  }

  // ---------- The routines ----------

  class ThreadHeap {
    const m: Memory
    const poolSize: nat              // kernel_pool.pool_size
    var arenas: map<nat, Arena>      // the headers that lie in the arenas' first pages
    var free: seq<seq<nat>>          // the free lists of k_block_descs
    ghost var live: map<nat, nat>

    ghost function View(): Heap
      reads this
    {
      Heap(arenas, free, live)
    }

    ghost predicate Valid()
      reads this, m
    {
      m.Valid() && Inv(m.View()) && HeapInv(View()) && AllHeld(m.View(), arenas)
    }

    /** block_desc_init. */
    constructor (m: Memory, poolSize: nat)
      requires m.Valid() && Inv(m.View())
      ensures Valid() && this.m == m && this.poolSize == poolSize && live == map[]
    {
      this.m := m;
      this.poolSize := poolSize;
      arenas, free, live := map[], [[], [], [], [], [], [], []], map[];
      EmptyHeap();
    }

    /** sys_malloc for more than 1024 bytes. */
    method MallocLarge(size: nat, beyond: bool) returns (ptr: Option<nat>)
      requires Valid() && 1024 < size < poolSize && PageCount(size) < 3840
      requires StaysInside(m.kVaddr, beyond, PageCount(size))
      modifies this, m`mem, m`kPool, m`kVaddr, m`owner, m`stopped
      ensures m.stopped == (old(m.stopped) || StopsKernel(old(m.View()), PageCount(size)))
      ensures Valid() && Inv(old(m.View())) && m.View() == MallocKernel(old(m.View()), PageCount(size)).s
      ensures match MallocKernel(old(m.View()), PageCount(size))
              case Got(_, p) => ptr == Some(Head(p)) && Fresh(old(View()), p, PageCount(size)) && View() == NewLarge(old(View()), p, PageCount(size), size)
              case Null(_) => ptr == None && View() == old(View())
    {
      ghost var s, h := m.View(), View();
      var n := PageCount(size);
      AfterMalloc(s, h, n);
      var page := m.MallocKernelPages(n, beyond);
      if page == None {
        return None;
      }
      NewLargeInv(h, page.value, size);
      AddArena(m.View(), arenas, page.value, Large(n));
      arenas := arenas[page.value := Large(n)];
      live := live[Head(page.value) := size];
      ptr := Some(Head(page.value));
    }

    /** A page becomes an arena of class k: the loop appends its blocks to the free list, and its
        ASSERT, that none is there already, holds. */
    method CutArena(p: nat, k: nat)
      requires Valid() && k < CLASSES && free[k] == [] && Fresh(View(), p, 1) && KernelHeld(m.View(), p)
      modifies this`arenas, this`free
      ensures View() == NewArena(old(View()), k, p) && AllHeld(m.View(), arenas)
    {
      ghost var h := View();
      SizeTable(k);
      assert AllKernelHeld(m.View(), p, 1);
      AddArena(m.View(), arenas, p, Small(k, BlocksPerArena(k)));
      arenas := arenas[p := Small(k, BlocksPerArena(k))];
      var list: seq<nat> := [];
      var idx := 0;
      while idx < BlocksPerArena(k)
        invariant 0 <= idx <= BlocksPerArena(k) && list == AllBlocks(p, k, idx)
      {
        var b := Block(p, k, idx);
        assert b !in list by { NotYetCut(p, k, idx); }
        list := list + [b];
        idx := idx + 1;
      }
      free := free[k := list];
    }

    /** sys_malloc for up to 1024 bytes, once the free list of the class is not empty. */
    method PopBlock(k: nat, size: nat) returns (b: nat)
      requires m.Valid() && Inv(m.View()) && Sound(View()) && AllHeld(m.View(), arenas)
      requires k < CLASSES && free[k] != [] && size <= BlockSize(k)
      requires forall p :: p != PageOf(free[k][0]) ==> NotIdle(View(), p)
      modifies this
      ensures Valid() && b == old(free)[k][0]
      ensures InSmall(old(View()), PageOf(b), k) && old(View()).arenas[PageOf(b)].cnt > 0 && View() == TakeBlock(old(View()), k, size)
    {
      ghost var h := View();
      TakeBlockInv(h, k, size);
      b := free[k][0];
      free := free[k := free[k][1..]];
      var p := PageOf(b);
      SameSpans(m.View(), arenas, p, Small(k, arenas[p].cnt - 1));
      arenas := arenas[p := Small(k, arenas[p].cnt - 1)];
      live := live[b := size];
    }

    method MallocSmall(size: nat, beyond: bool) returns (ptr: Option<nat>)
      requires Valid() && 0 < size < poolSize && size <= 1024
      modifies this, m`mem, m`kPool, m`kVaddr, m`owner, m`stopped
      ensures Valid() && Inv(old(m.View())) && HeapInv(old(View()))
      ensures m.stopped == (old(m.stopped) || (Wanted(old(View()), size, poolSize).Some? && StopsKernel(old(m.View()), 1)))
      ensures Wanted(old(View()), size, poolSize).None? ==> m.View() == old(m.View())
      ensures Wanted(old(View()), size, poolSize).Some? ==>
                && m.View() == MallocKernel(old(m.View()), 1).s
                && (MallocKernel(old(m.View()), 1).Got? ==> Fresh(old(View()), MallocKernel(old(m.View()), 1).page, 1))
      ensures Malloc(old(View()), size, poolSize, Answer(old(m.View()), old(View()), size, poolSize)) == Ok((View(), ptr))
      ensures ptr == None <==> Wanted(old(View()), size, poolSize).Some? && MallocKernel(old(m.View()), 1).Null?
    {
      ghost var s, h := m.View(), View();
      ClassFits(size);
      var k := ClassOf(size);
      if free[k] == [] {
        AfterMalloc(s, h, 1);
        var page := m.MallocKernelPages(1, beyond);
        if page == None {
          return None;
        }
        assert KernelHeld(m.View(), page.value);
        NewArenaInv(h, k, page.value, size);
        ghost var a := NewArenaKeeps(h, k, page.value);
        CutArena(page.value, k);
        assert View() == a;
      }
      var b := PopBlock(k, size);
      ptr := Some(b);
    }

    // ---------- sys_free ----------

    /** The removal loop: each ASSERT finds its block, and afterwards none of the arena's blocks is on
        the list. */
    method RemoveBlocks(p: nat, k: nat)
      requires Sound(View()) && InSmall(View(), p, k) && arenas[p].cnt == Count(k)
      modifies this`free
      ensures k < |old(free)| && free == old(free)[k := WithoutPage(old(free)[k], p)]
    {
      ghost var h := View();
      SizeTable(k);
      var list := free[k];
      var idx := 0;
      while idx < BlocksPerArena(k)
        invariant 0 <= idx <= BlocksPerArena(k) && free == h.free
        invariant list == WithoutBlocks(h.free[k], p, k, idx)
      {
        var b := Block(p, k, idx);
        IdleArena(h, p, k, idx);
        StillThere(h.free[k], p, k, idx);
        assert b in list;
        RemoveOne(h.free[k], p, k, idx);
        list := Without(list, b);
        idx := idx + 1;
      }
      forall b | b in h.free[k]
        ensures PageOf(b) == p ==> IsBlockBelow(b, p, k, Count(k))
      {
        assert FreeOk(h, k, b);
      }
      AllRemoved(h.free[k], p, k);
      free := free[k := list];
    }

    method FreeLarge(b: nat)
      requires Valid() && b in live && PageOf(b) in arenas && arenas[PageOf(b)].Large?
      modifies this`arenas, this`live, m`mem, m`kPool, m`uPool, m`kVaddr, m`owner
      ensures m.Valid() && Inv(m.View()) && AllHeld(m.View(), arenas) && View() == DropLarge(old(View()), PageOf(b))
      ensures Inv(old(m.View())) && var p, n := PageOf(b), old(arenas)[PageOf(b)].pages;
              n > 0 && AllKernelHeld(old(m.View()), p, n) && m.View() == MfreeKernel(old(m.View()), p, n)
    {
      ghost var h := View();
      var p := PageOf(b);
      var n := arenas[p].pages;
      assert ArenaOk(h, p) && LiveOk(h, b);
      AfterMfree(m.View(), h, p, arenas - {p});
      m.MfreeKernelPages(p, n);
      arenas := arenas - {p};
      live := live - {b};
    }

    /** list_append and ++cnt. */
    method PushBlock(b: nat)
      requires Valid() && b in live && PageOf(b) in arenas && arenas[PageOf(b)].Small?
      modifies this
      ensures HeapInv(old(View())) && old(arenas)[PageOf(b)].cls < |old(free)| && View() == GiveBlock(old(View()), b)
      ensures AllHeld(m.View(), arenas)
    {
      var p := PageOf(b);
      var k, cnt := arenas[p].cls, arenas[p].cnt;
      GiveBlockInv(View(), b);
      SameSpans(m.View(), arenas, p, Small(k, cnt + 1));
      free := free[k := free[k] + [b]];
      arenas := arenas[p := Small(k, cnt + 1)];
      live := live - {b};
    }

    /** The arena whose last block has come back: its blocks leave the free list and its page goes. */
    method FreeIdleArena(p: nat, k: nat, ghost h: Heap, ghost b: nat)
      requires m.Valid() && Inv(m.View()) && HeapInv(h) && b in h.live && PageOf(b) == p && InSmall(h, p, k) && k < |h.free|
      requires View() == GiveBlock(h, b) && AllHeld(m.View(), h.arenas) && arenas[p].cnt == Count(k)
      modifies this`arenas, this`free, m`mem, m`kPool, m`uPool, m`kVaddr, m`owner
      ensures m.Valid() && Inv(m.View()) && AllHeld(m.View(), arenas) && k < |old(free)| && View() == DropArena(old(View()), p)
      ensures Inv(old(m.View())) && AllKernelHeld(old(m.View()), p, 1) && m.View() == MfreeKernel(old(m.View()), p, 1)
    {
      GiveBlockInv(h, b);
      RemoveBlocks(p, k);
      AfterMfree(m.View(), h, p, arenas - {p});
      m.MfreeKernelPages(p, 1);
      arenas := arenas - {p};
    }

    /** sys_free. */
    method SysFree(b: nat)
      requires Valid() && b in live
      modifies this, m`mem, m`kPool, m`uPool, m`kVaddr, m`owner
      ensures Valid() && HeapInv(old(View())) && View() == Free(old(View()), b)
      ensures Inv(old(m.View()))
      ensures match Released(old(View()), b)
              case None => m.View() == old(m.View())
              case Some((p, n)) => n > 0 && AllKernelHeld(old(m.View()), p, n) && m.View() == MfreeKernel(old(m.View()), p, n)
    {
      ghost var h := View();
      LiveInArena(h, b);
      assert HeapInv(Free(h, b));
      var p := PageOf(b);
      match arenas[p]
      case Large(n) =>
        assert LiveOk(h, b);
        FreeLarge(b);
      case Small(k, cnt) =>
        BlockCount(h, p);
        PushBlock(b);
        if arenas[p].cnt == BlocksPerArena(k) {
          FreeIdleArena(p, k, h, b);
        }
    }
  }

  /** What malloc_page answers to a heap that needs pages. */
  ghost function Answer(s: Space, h: Heap, size: nat, poolSize: nat): (got: Option<nat>)
    requires Inv(s) && |h.free| == CLASSES
  {
    match Wanted(h, size, poolSize)
    case None => None
    case Some(n) =>
      match MallocKernel(s, n)
      case Got(_, page) => Some(page)
      case Null(_) => None
  }

  lemma BlockCount(h: Heap, p: nat)
    requires Sound(h) && p in h.arenas && h.arenas[p].Small?
    ensures h.arenas[p].cls < CLASSES && BlockSize(h.arenas[p].cls) > 0 && Count(h.arenas[p].cls) == BlocksPerArena(h.arenas[p].cls)
  {
    assert ArenaOk(h, p);
    SizeTable(h.arenas[p].cls);
  }

  lemma NotYetCut(p: nat, k: nat, idx: nat)
    requires k < CLASSES
    ensures Block(p, k, idx) !in AllBlocks(p, k, idx)
  {
    forall i | 0 <= i < idx
      ensures AllBlocks(p, k, idx)[i] != Block(p, k, idx)
    {
      SizeTable(k);
      BlocksApart(p, k, i, idx);
    }
  }

  lemma SameSpans(s: Space, arenas: map<nat, Arena>, p: nat, a: Arena)
    requires AllHeld(s, arenas) && p in arenas && Span(arenas[p]) == Span(a)
    ensures AllHeld(s, arenas[p := a])
  {
    var after := arenas[p := a];
    forall p': nat, q: nat
      ensures PageHeld(s, after, p', q)
    {
      assert PageHeld(s, arenas, p', q);
    }
  }

  // ---------- The removal loop ----------

  /** The list after the first n blocks of the arena have been removed. */
  ghost function WithoutBlocks(list: seq<nat>, p: nat, k: nat, n: nat): seq<nat> {
    if n == 0 then list else Without(WithoutBlocks(list, p, k, n - 1), Block(p, k, n - 1))
  }

  lemma {:induction false} InWithoutBlocks(list: seq<nat>, p: nat, k: nat, n: nat, b: nat)
    ensures b in WithoutBlocks(list, p, k, n) <==> b in list && forall i: nat :: i < n ==> b != Block(p, k, i)
  {
    if n > 0 {
      InWithoutBlocks(list, p, k, n - 1, b);
    }
  }

  lemma StillThere(list: seq<nat>, p: nat, k: nat, idx: nat)
    requires k < CLASSES && Block(p, k, idx) in list
    ensures Block(p, k, idx) in WithoutBlocks(list, p, k, idx)
  {
    InWithoutBlocks(list, p, k, idx, Block(p, k, idx));
    forall i: nat | i < idx
      ensures Block(p, k, idx) != Block(p, k, i)
    {
      SizeTable(k);
      BlocksApart(p, k, i, idx);
    }
  }

  lemma RemoveOne(list: seq<nat>, p: nat, k: nat, n: nat)
    ensures WithoutBlocks(list, p, k, n + 1) == Without(WithoutBlocks(list, p, k, n), Block(p, k, n))
  {}

  ghost predicate IsBlockBelow(b: nat, p: nat, k: nat, n: nat) {
    exists i: nat :: i < n && b == Block(p, k, i)
  }

  lemma {:induction false} WithoutBlocksCons(list: seq<nat>, p: nat, k: nat, n: nat)
    requires list != []
    ensures var rest := WithoutBlocks(list[1..], p, k, n);
            WithoutBlocks(list, p, k, n) == if IsBlockBelow(list[0], p, k, n) then rest else [list[0]] + rest
  {
    hide Block, IsBlockBelow, Without;
    if n == 0 {
      BelowStep(list[0], p, k, 0);
      assert list == [list[0]] + list[1..];
    } else {
      WithoutBlocksCons(list, p, k, n - 1);
      WithoutCons(list[0], WithoutBlocks(list[1..], p, k, n - 1), Block(p, k, n - 1));
      BelowStep(list[0], p, k, n - 1);
    }
  }

  lemma WithoutCons(x: nat, rest: seq<nat>, b: nat)
    ensures Without([x] + rest, b) == if x == b then Without(rest, b) else [x] + Without(rest, b)
  {
    assert ([x] + rest)[1..] == rest;
  }

  lemma BelowStep(b: nat, p: nat, k: nat, n: nat)
    ensures !IsBlockBelow(b, p, k, 0)
    ensures IsBlockBelow(b, p, k, n + 1) <==> IsBlockBelow(b, p, k, n) || b == Block(p, k, n)
  {}

  lemma {:induction false} WithoutNone(p: nat, k: nat, n: nat)
    ensures WithoutBlocks([], p, k, n) == []
  {
    if n > 0 {
      WithoutNone(p, k, n - 1);
    }
  }

  lemma {:induction false} AllRemoved(list: seq<nat>, p: nat, k: nat)
    requires k < CLASSES && forall b :: b in list ==> PageOf(b) == p ==> IsBlockBelow(b, p, k, Count(k))
    ensures WithoutBlocks(list, p, k, Count(k)) == WithoutPage(list, p)
  {
    if list == [] {
      WithoutNone(p, k, Count(k));
    } else {
      WithoutBlocksCons(list, p, k, Count(k));
      AllRemoved(list[1..], p, k);
      assert list[0] in list;
      if IsBlockBelow(list[0], p, k, Count(k)) {
        var i: nat :| i < Count(k) && list[0] == Block(p, k, i);
        BlockInArena(p, k, i);
      }
    }
  }
}
