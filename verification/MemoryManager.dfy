/**
  The routines of kernel/memory.c as they run: words are read and written through the page directory
  in cr3, and the bitmaps are updated in place. Each routine is proved to do what modules
  PageAllocator and PageRequests say.
 */
module MemoryManager {
  import opened Outcomes
  import opened Bitmap
  import opened Paging
  import opened PageAllocator
  import opened PageRequests
  import opened MemoryInit

  /** The self-map, for the address of a page. */
  lemma PageAddress(mem: seq<seq<nat>>, dir: nat, page: nat)
    requires Frames(mem) && dir < |mem| && page < 1023 * ENTRIES && mem[dir][1023] == Entry(dir)
    ensures var v, i := page * 4096, TableIndex(page);
            && PdePtr(v) < 0x1_0000_0000 && PtePtr(v) < 0x1_0000_0000
            && Walk(mem, dir, PdePtr(v) / 4096) == Some(dir) && PdePtr(v) % 4096 / 4 == i
            && PtePtr(v) % 4096 / 4 == SlotIndex(page)
            && (Present(mem[dir][i]) && FrameOf(mem[dir][i]) < |mem| ==> Walk(mem, dir, PtePtr(v) / 4096) == Some(FrameOf(mem[dir][i])))
  {
    SelfMap(mem, dir, page * 4096);
    VaddrIndices(page * 4096);
    assert page * 4096 / 4096 == page;
  }

  /** r is s with a page table at physical address 0 for the page, which now has user frame g. */
  ghost predicate LostState(s: Space, r: Space, d: nat, page: nat, g: nat) {
    && Frames(s.mem) && 0 < d < |s.mem| && UserFrame(s, g) && page < 1023 * ENTRIES
    && r == NullTable(s, d, page, g) && !Inv(r)
  }

  class Memory {
    var mem: seq<seq<nat>>
    const kStart: nat
    const uStart: nat
    var kPool: seq<bool>
    var uPool: seq<bool>
    var kVaddr: seq<bool>
    var uVaddr: map<nat, seq<bool>>
    var cr3: nat                     // the page directory in use, as a frame number
    var stopped: bool                // a bitmap_scan met a full bitmap: a kernel built with ASSERTs has stopped
    ghost var owner: map<nat, Use>

    /** mem_pool_init, on the memory that the loader left. */
    constructor (mem: seq<seq<nat>>, allMem: nat)
      requires Loaded(mem, allMem)
      ensures Valid() && View() == InitialSpace(mem, allMem) && cr3 == KERNEL_DIR && !stopped
    {
      var plan := PoolPlan(allMem);
      this.mem := mem;
      kStart, uStart := USED_PAGES, USED_PAGES + plan.kernelPages;
      kPool, uPool, kVaddr := AllClear(plan.kBits), AllClear(plan.uBits), AllClear(plan.kBits);
      uVaddr, owner, cr3, stopped := map[], map[], KERNEL_DIR, false;
      InitKeepsInv(mem, allMem);
    }

    ghost function View(): Space
      reads this
    {
      Space(mem, kStart, uStart, kPool, uPool, kVaddr, uVaddr, owner)
    }

    ghost predicate Valid()
      reads this
    {
      && Inv(View()) && (cr3 == KERNEL_DIR || cr3 in uVaddr)
      && |kPool| % 8 == 0 && |uPool| % 8 == 0 && |kVaddr| % 8 == 0
    }

    // ---------- Words and frames ----------

    predicate Mapped(vaddr: nat)
      reads this
    {
      && Frames(mem) && cr3 < |mem| && vaddr < 0x1_0000_0000
      && Walk(mem, cr3, vaddr / 4096).Some? && Walk(mem, cr3, vaddr / 4096).value < |mem|
    }

    method Load(vaddr: nat) returns (w: nat)
      requires Mapped(vaddr)
      ensures w == mem[Walk(mem, cr3, vaddr / 4096).value][vaddr % 4096 / 4]
    {
      var frame := Walk(mem, cr3, vaddr / 4096).value;
      w := mem[frame][vaddr % 4096 / 4];
    }

    method StoreWord(vaddr: nat, w: nat)
      requires Mapped(vaddr)
      modifies this`mem
      ensures mem == SetWord(old(mem), Walk(old(mem), cr3, vaddr / 4096).value, vaddr % 4096 / 4, w)
    {
      var frame := Walk(mem, cr3, vaddr / 4096).value;
      mem := SetWord(mem, frame, vaddr % 4096 / 4, w);
    }

    /** memset of the page at vaddr & 0xfffff000. */
    method ClearPage(vaddr: nat)
      requires Mapped(vaddr)
      modifies this`mem
      ensures mem == old(mem)[Walk(old(mem), cr3, vaddr / 4096).value := Zeros(ENTRIES)]
    {
      var frame := Walk(mem, cr3, vaddr / 4096).value;
      mem := mem[frame := Zeros(ENTRIES)];
    }

    /** palloc(&kernel_pool). */
    method PallocKernel() returns (f: Option<nat>)
      requires |kPool| % 8 == 0
      modifies this`kPool, this`stopped
      ensures match FirstFree(old(kPool))
              case None => f == None && kPool == old(kPool) && stopped
              case Some(b) => f == Some(kStart + b) && kPool == old(kPool)[b := true] && stopped == old(stopped)
    {
      FreeCountZeroIff(kPool);
      var bit, stops := Scan(kPool, true, 1);
      stopped := stopped || stops;
      FirstFitIsUnique(kPool, 1, bit, Fit(kPool, 1));
      match bit
      case None => f := None;
      case Some(b) =>
        assert ClearRun(kPool, b, 1);
        kPool := kPool[b := true];
        f := Some(kStart + b);
    }

    /** palloc(&user_pool). */
    method PallocUser() returns (f: Option<nat>)
      requires |uPool| % 8 == 0
      modifies this`uPool, this`stopped
      ensures match FirstFree(old(uPool))
              case None => f == None && uPool == old(uPool) && stopped
              case Some(b) => f == Some(uStart + b) && uPool == old(uPool)[b := true] && stopped == old(stopped)
    {
      FreeCountZeroIff(uPool);
      var bit, stops := Scan(uPool, true, 1);
      stopped := stopped || stops;
      FirstFitIsUnique(uPool, 1, bit, Fit(uPool, 1));
      match bit
      case None => f := None;
      case Some(b) =>
        assert ClearRun(uPool, b, 1);
        uPool := uPool[b := true];
        f := Some(uStart + b);
    }

    /** page_table_add, with its ASSERTs on the entry. Nothing looks at what palloc returns for the page
        table: without a frame it is physical address 0, and `lost` says so. */
    method PageTableAdd(page: nat, g: nat) returns (lost: bool)
      requires Frames(mem) && 0 < cr3 < |mem| && mem[cr3][1023] == Entry(cr3) && page < 1023 * ENTRIES && |kPool| % 8 == 0
      requires Present(mem[cr3][TableIndex(page)]) ==>
                 && FrameOf(mem[cr3][TableIndex(page)]) < |mem|
                 && !Present(mem[FrameOf(mem[cr3][TableIndex(page)])][SlotIndex(page)])
      requires !Present(mem[cr3][TableIndex(page)]) && FirstFree(kPool).Some? ==>
                 kStart + FirstFree(kPool).value < |mem| && kStart + FirstFree(kPool).value != cr3
      modifies this`mem, this`kPool, this`stopped
      ensures lost <==> !Present(old(mem)[cr3][TableIndex(page)]) && FirstFree(old(kPool)).None?
      ensures var i, j := TableIndex(page), SlotIndex(page);
              if Present(old(mem)[cr3][i]) then
                kPool == old(kPool) && mem == SetWord(old(mem), FrameOf(old(mem)[cr3][i]), j, Entry(g)) && stopped == old(stopped)
              else
                var b := FirstFree(old(kPool));
                var t := if b.Some? then kStart + b.value else 0;
                && kPool == (if b.Some? then old(kPool)[b.value := true] else old(kPool)) && stopped == (old(stopped) || b.None?)
                && mem == SetWord(SetWord(old(mem), cr3, i, Entry(t))[t := Zeros(ENTRIES)], t, j, Entry(g))
    {
      hide TableIndex, SlotIndex, PdePtr, PtePtr, PageAt, Fit;
      var v := page * 4096;
      lost := false;
      PageAddress(mem, cr3, page);
      var pde := Load(PdePtr(v));
      if Present(pde) {
        var pte := Load(PtePtr(v));
        assert !Present(pte);
        StoreWord(PtePtr(v), Entry(g));
      } else {
        var frame := PallocKernel();
        lost := frame == None;
        var table := if frame.Some? then frame.value else 0;
        StoreWord(PdePtr(v), Entry(table));
        assert mem[cr3][1023] == Entry(cr3);
        PageAddress(mem, cr3, page);
        ClearPage(PtePtr(v));
        PageAddress(mem, cr3, page);
        var pte := Load(PtePtr(v));
        assert !Present(pte);
        StoreWord(PtePtr(v), Entry(g));
      }
    }

    // ---------- malloc_page ----------

    /** One turn of the loop of malloc_page(PF_KERNEL): palloc and page_table_add. */
    method MapNextKernelPage(page: nat, n: nat) returns (ok: bool)
      requires Valid() && KernelReserved(View(), page, n) && n > 0
      modifies this`mem, this`kPool, this`owner, this`stopped
      ensures Valid() && Inv(View()) && ok == FirstFree(old(View()).kPool).Some? && stopped == (old(stopped) || !ok)
      ensures if ok then
                && HeapPage(page) && Inv(old(View())) && KernelReserved(View(), page + 1, n - 1)
                && View() == MapKernel(old(View()), page, old(View()).kStart + FirstFree(old(View()).kPool).value)
              else View() == old(View())
    {
      ghost var s := View();
      var g := PallocKernel();
      if g == None {
        return false;
      }
      MapKernelStep(s, page, n, g.value);
      KernelHoleUnmapped(s, page, n);
      KernelTablePresent(s, cr3, page);
      var lost := PageTableAdd(page, g.value);
      owner := owner[g.value := KernelPage(page)];
      ok := true;
    }

    /** page_table_add for a user frame g that has just been taken; s is the state before that. */
    method InstallUserPage(ghost s: Space, page: nat, n: nat, g: nat) returns (lost: bool)
      requires Inv(s) && cr3 in s.uVaddr && UserReserved(s, cr3, page, n) && n > 0 && page < KERNEL_PDE * ENTRIES
      requires UserFrame(s, g) && !s.uPool[g - s.uStart] && View() == s.(uPool := s.uPool[g - s.uStart := true])
      requires |kPool| % 8 == 0 && |uPool| % 8 == 0 && |kVaddr| % 8 == 0
      modifies this`mem, this`kPool, this`owner, this`stopped
      ensures (lost <==> WithTable(s, cr3, page).None?) && stopped == (old(stopped) || lost)
      ensures lost ==> LostState(s, View(), cr3, page, g)
      ensures !lost ==>
                && WithTable(s, cr3, page).Some? && Valid() && Inv(View()) && cr3 in uVaddr
                && var t := WithTable(s, cr3, page).value;
                && Inv(t) && Geometry(t) && CanMapUser(t, cr3, page, g) && View() == MapUser(t, cr3, page, g)
                && UserReserved(View(), cr3, page + 1, n - 1)
    {
      hide TableIndex, SlotIndex, Entry, FrameOf, Present, PageAt, Inv, UserReserved, UserHole, Fit;
      FirstHole(s, cr3, page, n);
      DirFrame(s, cr3);
      UserHoleUnmapped(s, cr3, page);
      ghost var t := WithTable(s, cr3, page);
      if t.Some? {
        MapUserStep(s, cr3, page, n, g);
        WithTableKeeps(s, cr3, page);
      } else {
        NullTableBreaksInv(s, cr3, page, g);
      }
      lost := PageTableAdd(page, g);
      if t.Some? {
        owner := t.value.owner[g := UserPage(cr3, page)];
      }
    }

    /** One turn of the loop of malloc_page(PF_USER). `lost` says that the page table went to physical
        address 0. */
    method MapNextUserPage(page: nat, n: nat) returns (ok: bool, lost: bool)
      requires Valid() && cr3 in uVaddr && UserReserved(View(), cr3, page, n) && n > 0 && page < KERNEL_PDE * ENTRIES
      modifies this`mem, this`kPool, this`uPool, this`owner, this`stopped
      ensures Inv(old(View())) && stopped == (old(stopped) || !ok)
      ensures lost <==> FirstFree(old(View()).uPool).Some? && WithTable(old(View()), cr3, page).None?
      ensures ok <==> FirstFree(old(View()).uPool).Some? && !lost
      ensures lost ==> LostState(old(View()), View(), cr3, page, old(View()).uStart + FirstFree(old(View()).uPool).value)
      ensures !lost ==> Valid() && Inv(View())
      ensures ok ==>
                && WithTable(old(View()), cr3, page).Some?
                && var t, g := WithTable(old(View()), cr3, page).value, old(View()).uStart + FirstFree(old(View()).uPool).value;
                && Inv(t) && Geometry(t) && CanMapUser(t, cr3, page, g) && View() == MapUser(t, cr3, page, g)
                && UserReserved(View(), cr3, page + 1, n - 1) && cr3 in uVaddr
      ensures !ok && !lost ==> View() == old(View())
    {
      hide WithTable, Inv, UserReserved, Fit, LostState, MapUser, CanMapUser, Geometry, FreeCount, FirstFree, TableIndex;
      ghost var s := View();
      var g := PallocUser();
      if g == None {
        return false, false;
      }
      FirstHole(s, cr3, page, n);
      lost := InstallUserPage(s, page, n, g.value);
      ok := !lost;
    }

    /** vaddr_get(PF_KERNEL, n), where the scan stays inside the bitmap. `beyond` is the bit that follows
        the bitmap in memory. */
    method VaddrGetKernel(n: nat, beyond: bool) returns (start: Option<nat>)
      requires Valid() && n > 0 && StaysInside(kVaddr, beyond, n)
      modifies this`kVaddr, this`stopped
      ensures stopped == (old(stopped) || FreeCount(old(kVaddr)) == 0)
      ensures match Fit(old(kVaddr), n)
              case None => start == None && kVaddr == old(kVaddr)
              case Some(b) => start == Some(KERNEL_HEAP + b) && kVaddr == SetRange(old(kVaddr), b, n, true)
    {
      FreeCountZeroIff(kVaddr);
      var bit, stops := Scan(kVaddr, beyond, n);
      stopped := stopped || stops;
      GuardedScan(kVaddr, beyond, n, bit);
      FirstFitIsUnique(kVaddr, n, bit, Fit(kVaddr, n));
      match bit
      case None => start := None;
      case Some(b) =>
        assert ClearRun(kVaddr, b, n);
        kVaddr := SetRange(kVaddr, b, n, true);
        start := Some(KERNEL_HEAP + b);
    }

    /** vaddr_get(PF_USER, n) in the process whose directory is in use; its ASSERT holds because the
        bit of the last page, the stack, is set. */
    method VaddrGetUser(n: nat, beyond: bool) returns (start: Option<nat>)
      requires Valid() && cr3 in uVaddr && n > 0 && |uVaddr[cr3]| == USER_PAGES && uVaddr[cr3][USER_PAGES - 1]
      modifies this`uVaddr, this`stopped
      ensures stopped == (old(stopped) || FreeCount(old(uVaddr)[cr3]) == 0)
      ensures match Fit(old(uVaddr)[cr3], n)
              case None => start == None && uVaddr == old(uVaddr)
              case Some(b) => start == Some(USER_BASE + b) && uVaddr == old(uVaddr)[cr3 := SetRange(old(uVaddr)[cr3], b, n, true)]
    {
      var bits := uVaddr[cr3];
      FreeCountZeroIff(bits);
      var bit, stops := Scan(bits, beyond, n);
      stopped := stopped || stops;
      StackStaysInside(bits, beyond, n);
      GuardedScan(bits, beyond, n, bit);
      FirstFitIsUnique(bits, n, bit, Fit(bits, n));
      match bit
      case None => start := None;
      case Some(b) =>
        RunEndsBefore(bits, b, n);
        assert USER_BASE + b < 0xc0000 - 1;
        uVaddr := uVaddr[cr3 := SetRange(bits, b, n, true)];
        start := Some(USER_BASE + b);
    }

    /** malloc_page(PF_KERNEL, n). */
    method MallocKernelPages(n: nat, beyond: bool) returns (start: Option<nat>)
      requires Valid() && 0 < n < 3840 && StaysInside(kVaddr, beyond, n)
      modifies this`mem, this`kPool, this`kVaddr, this`owner, this`stopped
      ensures Valid() && Inv(old(View())) && stopped == (old(stopped) || StopsKernel(old(View()), n))
      ensures View() == MallocKernel(old(View()), n).s
      ensures start == match MallocKernel(old(View()), n) case Got(_, page) => Some(page) case Null(_) => None
    {
      hide MapKernelPages, FreeCount, Fit, KernelReserved;
      ghost var s := View();
      StopsKernelIff(s, n);
      start := VaddrGetKernel(n, beyond);
      if start == None {
        return;
      }
      ReserveKernelKeepsInv(s, start.value - KERNEL_HEAP, n);
      ghost var u := View();
      assert u == ReserveKernel(s, start.value - KERNEL_HEAP, n);
      var ok := MapKernelRun(start.value, n);
      if !ok {
        start := None;
      }
    }

    /** The loop of malloc_page(PF_KERNEL, n). */
    method MapKernelRun(page: nat, n: nat) returns (ok: bool)
      requires Valid() && Inv(View()) && KernelReserved(View(), page, n)
      modifies this`mem, this`kPool, this`owner, this`stopped
      ensures Valid() && Inv(old(View())) && stopped == (old(stopped) || !ok)
      ensures MapKernelPages(old(View()), page, n) == if ok then Done(View()) else NoFrame(View())
    {
      ghost var s := View();
      var i := 0;
      hide *;
      while i < n
        invariant 0 <= i <= n && Valid() && Inv(View()) && KernelReserved(View(), page + i, n - i)
        invariant MapKernelPages(View(), page + i, n - i) == MapKernelPages(s, page, n) && stopped == old(stopped)
      {
        KernelTurn(View(), page + i, n - i);
        var mapped := MapNextKernelPage(page + i, n - i);
        if !mapped {
          return false;
        }
        i := i + 1;
      }
      MapKernelStop(View(), page + n, 0);
      ok := true;
    }

    /** malloc_page(PF_USER, n). When a page table is lost to physical address 0, the model follows the
        kernel no further. */
    method MallocUserPages(n: nat, beyond: bool) returns (start: Option<nat>, lost: bool)
      requires Valid() && cr3 in uVaddr && 0 < n < 3840 && |uVaddr[cr3]| == USER_PAGES && uVaddr[cr3][USER_PAGES - 1]
      modifies this`mem, this`kPool, this`uPool, this`uVaddr, this`owner, this`stopped
      ensures Inv(old(View())) && stopped == (old(stopped) || StopsUser(old(View()), cr3, n))
      ensures lost <==> MallocUser(old(View()), cr3, n).Lost?
      ensures !lost ==> Valid() && View() == MallocUser(old(View()), cr3, n).s
      ensures start == match MallocUser(old(View()), cr3, n) case Got(_, page) => Some(page) case Null(_) => None case Lost => None
    {
      hide MapUserPages, UserReserved, Fit, Missing, Tables;
      ghost var s := View();
      StopsUserIff(s, cr3, n);
      lost := false;
      start := VaddrGetUser(n, beyond);
      if start == None {
        return;
      }
      ReserveUserKeepsInv(s, cr3, start.value - USER_BASE, n);
      ghost var u := View();
      assert u == ReserveUser(s, cr3, start.value - USER_BASE, n);
      var ok;
      ok, lost := MapUserRun(start.value, n);
      if !ok {
        start := None;
      }
    }

    /** The loop of malloc_page(PF_USER, n). */
    method MapUserRun(page: nat, n: nat) returns (ok: bool, lost: bool)
      requires Valid() && Inv(View()) && cr3 in uVaddr && UserReserved(View(), cr3, page, n)
      modifies this`mem, this`kPool, this`uPool, this`owner, this`stopped
      ensures Inv(old(View())) && stopped == (old(stopped) || !ok)
      ensures lost <==> MapUserPages(old(View()), cr3, page, n).NoTable?
      ensures !lost ==> Valid() && MapUserPages(old(View()), cr3, page, n) == if ok then Done(View()) else NoFrame(View())
      ensures lost ==> !ok
    {
      ghost var s := View();
      var i := 0;
      hide *;
      while i < n
        invariant 0 <= i <= n && Valid() && Inv(View()) && cr3 in uVaddr && UserReserved(View(), cr3, page + i, n - i)
        invariant MapUserPages(View(), cr3, page + i, n - i) == MapUserPages(s, cr3, page, n) && stopped == old(stopped)
      {
        UserTurn(View(), cr3, page + i, n - i);
        var mapped;
        mapped, lost := MapNextUserPage(page + i, n - i);
        if !mapped {
          return false, lost;
        }
        i := i + 1;
      }
      MapUserStop(View(), cr3, page + n, 0);
      ok, lost := true, false;
    }

    // ---------- mfree_page ----------

    /** addr_v2p of the first byte of a page, and the low bits dropped: the frame in its entry. */
    method FrameAt(page: nat) returns (g: nat)
      requires Frames(mem) && cr3 < |mem| && mem[cr3][1023] == Entry(cr3) && page < 1023 * ENTRIES
      requires Walk(mem, cr3, page).Some?
      ensures Walk(mem, cr3, page) == Some(g)
    {
      PageAddress(mem, cr3, page);
      var pte := Load(PtePtr(page * 4096));
      g := FrameOf(pte);
    }

    /** page_table_pte_remove. */
    method PteRemove(page: nat)
      requires Frames(mem) && cr3 < |mem| && mem[cr3][1023] == Entry(cr3) && page < 1023 * ENTRIES
      requires Present(mem[cr3][TableIndex(page)]) && FrameOf(mem[cr3][TableIndex(page)]) < |mem|
      modifies this`mem
      ensures var t, j := FrameOf(old(mem)[cr3][TableIndex(page)]), SlotIndex(page);
              mem == SetWord(old(mem), t, j, Unmapped(old(mem)[t][j]))
    {
      PageAddress(mem, cr3, page);
      var pte := Load(PtePtr(page * 4096));
      StoreWord(PtePtr(page * 4096), Unmapped(pte));
    }

    /** pfree: the frame's address tells its pool. */
    method Pfree(g: nat)
      requires Geometry(View()) && (KernelFrame(View(), g) || UserFrame(View(), g))
      modifies this`kPool, this`uPool
      ensures if UserFrame(old(View()), g) then kPool == old(kPool) && uPool == old(uPool)[g - uStart := false]
              else uPool == old(uPool) && kPool == old(kPool)[g - kStart := false]
    {
      if g >= uStart {
        uPool := uPool[g - uStart := false];
      } else {
        kPool := kPool[g - kStart := false];
      }
    }

    /** One turn of the loop of mfree_page over kernel pages, with its ASSERT on the frame. */
    method FreeNextKernelPage(page: nat, n: nat)
      requires Valid() && Inv(View()) && AllKernelHeld(View(), page, n) && n > 0
      modifies this`mem, this`kPool, this`uPool, this`owner
      ensures Valid() && Inv(View()) && Inv(old(View())) && AllKernelHeld(View(), page + 1, n - 1)
      ensures UnmapKernelPages(old(View()), page, n) == UnmapKernelPages(View(), page + 1, n - 1)
    {
      ghost var s := View();
      HeldKernelEntry(s, cr3, page, n);
      var g := FrameAt(page);
      assert kStart <= g < uStart;
      Pfree(g);
      PteRemove(page);
      owner := owner - {g};
      UnmapKernelStep(s, page, n);
      assert View() == UnmapKernel(s, page, g);
    }

    method FreeNextUserPage(page: nat, n: nat)
      requires Valid() && Inv(View()) && AllUserHeld(View(), cr3, page, n) && n > 0
      modifies this`mem, this`kPool, this`uPool, this`owner
      ensures Valid() && Inv(View()) && Inv(old(View())) && AllUserHeld(View(), cr3, page + 1, n - 1)
      ensures UnmapUserPages(old(View()), cr3, page, n) == UnmapUserPages(View(), cr3, page + 1, n - 1)
    {
      ghost var s := View();
      HeldUserEntry(s, cr3, page, n);
      var g := FrameAt(page);
      assert g >= uStart;
      Pfree(g);
      PteRemove(page);
      owner := owner - {g};
      UnmapUserStep(s, cr3, page, n);
      assert View() == UnmapUser(s, cr3, page, g);
    }

    /** mfree_page(PF_KERNEL, page, n). */
    method MfreeKernelPages(page: nat, n: nat)
      requires Valid() && Inv(View()) && AllKernelHeld(View(), page, n) && n >= 1
      modifies this`mem, this`kPool, this`uPool, this`kVaddr, this`owner
      ensures Valid() && Inv(old(View())) && AllKernelHeld(old(View()), page, n) && View() == MfreeKernel(old(View()), page, n)
    {
      ghost var s := View();
      FreeKernelRun(page, n);
      KernelHeldInRange(s, page, n);
      UnmapKernelEffect(s, page, n);
      ghost var t := View();
      assert t == UnmapKernelPages(s, page, n);
      kVaddr := SetRange(kVaddr, page - KERNEL_HEAP, n, false);
      KernelBitsCleared(s, t, page, n);
    }

    method FreeKernelRun(page: nat, n: nat)
      requires Valid() && Inv(View()) && AllKernelHeld(View(), page, n)
      modifies this`mem, this`kPool, this`uPool, this`owner
      ensures Valid() && Inv(View()) && Inv(old(View())) && View() == UnmapKernelPages(old(View()), page, n)
    {
      ghost var s := View();
      var i := 0;
      hide *;
      while i < n
        invariant 0 <= i <= n && Valid() && Inv(View()) && AllKernelHeld(View(), page + i, n - i)
        invariant UnmapKernelPages(View(), page + i, n - i) == UnmapKernelPages(s, page, n)
      {
        FreeNextKernelPage(page + i, n - i);
        i := i + 1;
      }
      NothingToUnmap(View(), cr3, page + n);
    }

    /** mfree_page(PF_USER, page, n). */
    method MfreeUserPages(page: nat, n: nat)
      requires Valid() && Inv(View()) && AllUserHeld(View(), cr3, page, n) && n >= 1
      modifies this`mem, this`kPool, this`uPool, this`uVaddr, this`owner
      ensures Valid() && Inv(old(View())) && AllUserHeld(old(View()), cr3, page, n) && View() == MfreeUser(old(View()), cr3, page, n)
    {
      ghost var s := View();
      FreeUserRun(page, n);
      UserHeldInRange(s, cr3, page, n);
      UnmapUserEffect(s, cr3, page, n);
      ghost var t := View();
      assert t == UnmapUserPages(s, cr3, page, n);
      uVaddr := uVaddr[cr3 := SetRange(uVaddr[cr3], page - USER_BASE, n, false)];
      UserBitsCleared(s, t, cr3, page, n);
    }

    method FreeUserRun(page: nat, n: nat)
      requires Valid() && Inv(View()) && AllUserHeld(View(), cr3, page, n)
      modifies this`mem, this`kPool, this`uPool, this`owner
      ensures Valid() && Inv(View()) && Inv(old(View())) && View() == UnmapUserPages(old(View()), cr3, page, n)
    {
      ghost var s := View();
      var i := 0;
      hide *;
      while i < n
        invariant 0 <= i <= n && Valid() && Inv(View()) && AllUserHeld(View(), cr3, page + i, n - i)
        invariant UnmapUserPages(View(), cr3, page + i, n - i) == UnmapUserPages(s, cr3, page, n)
      {
        FreeNextUserPage(page + i, n - i);
        i := i + 1;
      }
      NothingToUnmap(View(), cr3, page + n);
    }

    // ---------- get_a_page and page directories ----------

    /** get_a_page(PF_USER, page), past its ASSERT on the bit index. */
    method GetAPage(page: nat) returns (ok: bool, lost: bool)
      requires Valid() && Inv(View()) && MayAsk(View(), cr3, page)
      modifies this`mem, this`kPool, this`uPool, this`uVaddr, this`owner, this`stopped
      ensures Inv(old(View())) && stopped == (old(stopped) || StopsPage(old(View()), cr3, page))
      ensures lost <==> !Legal(old(View()), OnePage(cr3, page))
      ensures !lost ==> Valid() && View() == GetPage(old(View()), cr3, page)
      ensures ok ==> UserHeld(View(), cr3, page)
      ensures ok <==> !StopsPage(old(View()), cr3, page)
    {
      hide Fit, Missing, FreeCount;
      ghost var s := View();
      uVaddr := uVaddr[cr3 := SetRange(uVaddr[cr3], page - USER_BASE, 1, true)];
      OnePageReserved(s, cr3, page);
      ghost var u := View();
      assert u == ReserveUser(s, cr3, page - USER_BASE, 1);
      MapUserEffect(u, cr3, page, 1, Min(1, FreeCount(u.uPool)));
      FewerPagesFewerTables(Tables(u, cr3), page, Min(1, FreeCount(u.uPool)), 1);
      assert Tables(u, cr3) == Tables(s, cr3);
      hide MapUserPages, Tables;
      ok, lost := MapUserRun(page, 1);
      if ok {
        NewUserHeld(s, u, View(), cr3, page, 1);
      }
    }

    /** page_dir_activate: `pgdir` is the kernel page where a process keeps its directory, and None for a
        kernel thread. The frame comes from addr_v2p, under whatever directory is in use. */
    method Activate(pgdir: Option<nat>, ghost dir: nat)
      requires Valid() && if pgdir.Some? then KeepsDir(View(), dir, pgdir.value) else dir == KERNEL_DIR
      modifies this`cr3
      ensures Valid() && cr3 == dir
    {
      if pgdir == None {
        cr3 := KERNEL_DIR;
        return;
      }
      DirInKernelPage(View(), cr3, dir, pgdir.value);
      cr3 := FrameAt(pgdir.value);
    }

    /** The end of create_page_dir: `page` is a fresh kernel page, full of zeros. The kernel half of the
        directory in use is copied, and the last entry points to the new directory. */
    method FillPageDir(page: nat, bits: seq<bool>) returns (g: nat)
      requires Valid() && Inv(View()) && Legal(View(), NewProcess(cr3, page, bits))
      requires Walk(mem, KERNEL_DIR, page).value < |mem| && mem[Walk(mem, KERNEL_DIR, page).value] == Zeros(ENTRIES)
      modifies this`mem, this`uVaddr
      ensures Valid() && Inv(old(View())) && g < |old(mem)| && g !in old(uVaddr) && g in uVaddr
      ensures cr3 < |old(mem)| && View() == NewDirectory(old(View()), cr3, g, bits)
      ensures forall p :: 0 <= p < KERNEL_PDE * ENTRIES ==> Walk(mem, g, p).None?
      ensures |mem| == |old(mem)| && |mem[g]| == ENTRIES && forall f :: 0 <= f < |mem| && f != g ==> mem[f] == old(mem)[f]
      ensures |old(mem)[cr3]| == ENTRIES && mem[g][1023] == Entry(g) && forall i :: KERNEL_PDE <= i < 1023 ==> mem[g][i] == old(mem)[cr3][i]
    {
      hide Inv;
      ghost var s := View();
      NewProcessFrame(s, cr3, page, bits);
      HeldKernelEntry(s, cr3, page, 1) by { assert AllKernelHeld(s, page, 1); }
      g := FrameAt(page);
      var kernelHalf := mem[cr3][KERNEL_PDE..];
      mem := mem[g := mem[g][..KERNEL_PDE] + kernelHalf];
      mem := SetWord(mem, g, 1023, Entry(g));
      uVaddr := uVaddr[g := bits];
      assert mem[g] == (Zeros(KERNEL_PDE) + s.mem[cr3][KERNEL_PDE..])[1023 := Entry(g)];
      assert View() == NewDirectory(s, cr3, g, bits);
    }
  }

  /** The page directory d lies in kernel page `page`. */
  ghost predicate KeepsDir(s: Space, d: nat, page: nat) {
    d in s.uVaddr && d in s.owner && s.owner[d] == KernelPage(page)
  }

  /** Under every directory that page leads to the frame of the page directory. */
  lemma DirInKernelPage(s: Space, dir: nat, d: nat, page: nat)
    requires Inv(s) && (dir == KERNEL_DIR || dir in s.uVaddr) && KeepsDir(s, d, page)
    ensures dir < |s.mem| && s.mem[dir][1023] == Entry(dir) && page < 1023 * ENTRIES && Walk(s.mem, dir, page) == Some(d)
  {
    OwnedFrames(s, d);
    assert HeapPage(page);
    KernelWalk(s, dir, page, d);
    KernelTablePresent(s, dir, page);
  }

  /** The stack's bit, the last one, keeps the scan of a process's bitmap inside it. */
  lemma StackStaysInside(bits: seq<bool>, beyond: bool, n: nat)
    requires bits != [] && bits[|bits| - 1]
    ensures StaysInside(bits, beyond, n)
  {}

  lemma NothingToUnmap(s: Space, d: nat, page: nat)
    requires Inv(s)
    ensures AllKernelHeld(s, page, 0) && UnmapKernelPages(s, page, 0) == s
    ensures AllUserHeld(s, d, page, 0) && UnmapUserPages(s, d, page, 0) == s
  {}

  /** The entry of a mapped kernel page, as any directory sees it. */
  lemma HeldKernelEntry(s: Space, dir: nat, page: nat, n: nat)
    requires Inv(s) && (dir == KERNEL_DIR || dir in s.uVaddr) && AllKernelHeld(s, page, n) && n > 0
    ensures KernelHeld(s, page) && dir < |s.mem| && s.mem[dir][1023] == Entry(dir) && page < 1023 * ENTRIES
    ensures var g := Walk(s.mem, KERNEL_DIR, page).value;
            && Walk(s.mem, dir, page) == Some(g) && KernelFrame(s, g) && s.kStart <= g < s.uStart
            && KERNEL_PDE <= TableIndex(page)
            && s.mem[dir][TableIndex(page)] == Entry(KernelTable(TableIndex(page))) && KernelTable(TableIndex(page)) < |s.mem|
            && s.mem[KernelTable(TableIndex(page))][SlotIndex(page)] == Entry(g)
  {
    assert KernelHeld(s, page);
    var g := Walk(s.mem, KERNEL_DIR, page).value;
    KernelWalk(s, KERNEL_DIR, page, g);
    KernelWalk(s, dir, page, g);
    KernelTablePresent(s, dir, page);
    assert FrameOk(s, g);
  }

  lemma HeldUserEntry(s: Space, d: nat, page: nat, n: nat)
    requires Inv(s) && AllUserHeld(s, d, page, n) && n > 0
    ensures UserHeld(s, d, page) && d in s.uVaddr && d < |s.mem| && s.mem[d][1023] == Entry(d)
    ensures var g := Walk(s.mem, d, page).value;
            && UserFrame(s, g) && Present(s.mem[d][TableIndex(page)]) && TableFrame(s, d, page) < |s.mem|
            && s.mem[TableFrame(s, d, page)][SlotIndex(page)] == Entry(g)
  {
    assert UserHeld(s, d, page);
    var g := Walk(s.mem, d, page).value;
    UserWalk(s, d, page, g);
    DirFrame(s, d);
    assert FrameOk(s, g);
  }

  /** One turn of the loops, as the functions have it. */
  lemma KernelTurn(s: Space, page: nat, n: nat)
    requires Inv(s) && KernelReserved(s, page, n) && n > 0
    ensures MapKernelPages(s, page, n) ==
            match FirstFree(s.kPool)
            case None => NoFrame(s)
            case Some(b) =>
              (MapKernelStep(s, page, n, s.kStart + b); MapKernelPages(MapKernel(s, page, s.kStart + b), page + 1, n - 1))
  {}

  lemma UserTurn(s: Space, d: nat, page: nat, n: nat)
    requires Inv(s) && UserReserved(s, d, page, n) && n > 0
    ensures d in s.uVaddr && page < KERNEL_PDE * ENTRIES
    ensures MapUserPages(s, d, page, n) ==
            match FirstFree(s.uPool)
            case None => NoFrame(s)
            case Some(b) =>
              if WithTable(s, d, page).None? then NoTable else
              (FirstHole(s, d, page, n); MapUserStep(s, d, page, n, s.uStart + b);
               MapUserPages(MapUser(WithTable(s, d, page).value, d, page, s.uStart + b), d, page + 1, n - 1))
  {
    hide Inv, Geometry, UserReserved, CanMapUser;
    FirstHole(s, d, page, n);
  }

  lemma KernelHoleUnmapped(s: Space, page: nat, n: nat)
    requires Inv(s) && KernelReserved(s, page, n) && n > 0
    ensures HeapPage(page) && !Present(KernelPte(s, page))
  {
    assert KernelHole(s, page);
    KernelUnmapped(s, page);
  }

  lemma KernelTablePresent(s: Space, dir: nat, page: nat)
    requires Inv(s) && (dir == KERNEL_DIR || dir in s.uVaddr) && HeapPage(page)
    ensures 0 < dir < |s.mem| && KernelHalf(s, dir) && KERNEL_PDE <= TableIndex(page) < 1023
    ensures s.mem[dir][1023] == Entry(dir) && s.mem[dir][TableIndex(page)] == Entry(KernelTable(TableIndex(page)))
    ensures KernelTable(TableIndex(page)) < |s.mem|
  {
    if dir in s.uVaddr {
      DirFrame(s, dir);
    }
  }

  lemma UserHoleUnmapped(s: Space, d: nat, page: nat)
    requires Inv(s) && UserHole(s, d, page)
    ensures d in s.uVaddr && Frames(s.mem) && d < |s.mem| && s.mem[d][1023] == Entry(d) && page < KERNEL_PDE * ENTRIES
    ensures Present(s.mem[d][TableIndex(page)]) ==>
              FrameOf(s.mem[d][TableIndex(page)]) < |s.mem| && !Present(s.mem[FrameOf(s.mem[d][TableIndex(page)])][SlotIndex(page)])
    ensures FirstFree(s.kPool).Some? ==> s.kStart + FirstFree(s.kPool).value < |s.mem| && s.kStart + FirstFree(s.kPool).value != d
  {
    DirFrame(s, d);
    OwnedFrames(s, d);
    if Present(s.mem[d][TableIndex(page)]) {
      TableOwned(s, d, page);
      UserUnmapped(s, d, page);
    }
  }
}
