/**
  mem_pool_init (kernel/memory.c:271-335): how much memory the two pools get, and that the memory
  manager starts in a state in which everything in module PageRequests holds.
 */
module MemoryInit {
  import opened Outcomes
  import opened Bitmap
  import opened Paging
  import opened PageAllocator
  import opened PageRequests

  const USED_PAGES := 0x200          // the low megabyte and 256 frames of page tables
  const MEM_BITMAP_BASE := 0xc009_a000
  const MAIN_PCB := 0xc009_e000      // the first page after the room for bitmaps

  /** The pools in frames, and their bitmaps in bits: whole bytes only. */
  datatype Plan = Plan(kernelPages: nat, userPages: nat, kBits: nat, uBits: nat)

  /** The arithmetic of the source: all_mem - used_mem on 32 bits, all_free_pages cut to 16. */
  function PoolPlan(allMem: nat): Plan {
    var free := ((allMem - USED_PAGES * 4096) % 0x1_0000_0000) / 4096 % 0x1_0000;
    var kernel := free / 2;
    Plan(kernel, free - kernel, kernel / 8 * 8, (free - kernel) / 8 * 8)
  }

  /** The pools lie one after the other in real memory, and their three bitmaps in the four pages
      set aside for them, whatever the size of memory. */
  lemma PlanFits(allMem: nat)
    requires USED_PAGES * 4096 <= allMem < 0x1_0000_0000
    ensures var p := PoolPlan(allMem);
            && p.kernelPages <= p.userPages <= p.kernelPages + 1
            && p.kBits <= p.kernelPages < p.kBits + 8 && p.uBits <= p.userPages < p.uBits + 8 && p.kBits % 8 == 0 && p.uBits % 8 == 0
            && USED_PAGES + p.kernelPages + p.userPages <= allMem / 4096
            && p.kBits <= 0x7fff
            && MEM_BITMAP_BASE + p.kBits / 8 + p.uBits / 8 + p.kBits / 8 <= MAIN_PCB
  {
    var free := (allMem - USED_PAGES * 4096) / 4096;
    assert (allMem - USED_PAGES * 4096) % 0x1_0000_0000 == allMem - USED_PAGES * 4096;
    assert free + USED_PAGES == allMem / 4096;
    assert free % 0x1_0000 <= free;
  }

  /** Exactly when the pools cover all free memory: up to 258 MB. Beyond that the 16-bit page count
      wraps, although the comment at the top of the file speaks of 512 MB. */
  lemma PlanCoversIff(allMem: nat)
    requires USED_PAGES * 4096 <= allMem < 0x1_0000_0000
    ensures USED_PAGES + PoolPlan(allMem).kernelPages + PoolPlan(allMem).userPages == allMem / 4096 <==> allMem < 258 * 0x10_0000
  {
    var free := (allMem - USED_PAGES * 4096) / 4096;
    assert (allMem - USED_PAGES * 4096) % 0x1_0000_0000 == allMem - USED_PAGES * 4096;
    assert free + USED_PAGES == allMem / 4096;
    assert free < 0x1_0000 <==> allMem < 258 * 0x10_0000;
    assert free % 0x1_0000 == free <==> free < 0x1_0000;
  }

  /** With exactly 258 MB there is no memory to hand out at all. */
  lemma PlanOfNothing()
    ensures PoolPlan(258 * 0x10_0000) == Plan(0, 0, 0, 0)
  {}

  /** What the loader leaves: the kernel's directory maps itself and the kernel's page tables, and
      nothing is mapped in the kernel heap. */
  ghost predicate Loaded(mem: seq<seq<nat>>, allMem: nat) {
    && USED_PAGES * 4096 <= allMem < 0x1_0000_0000 && |mem| == allMem / 4096 && Frames(mem)
    && mem[KERNEL_DIR][1023] == Entry(KERNEL_DIR)
    && (forall i :: KERNEL_PDE <= i < 1023 ==> mem[KERNEL_DIR][i] == Entry(KernelTable(i)))
    && (forall i, j {:trigger mem[KernelTable(i)][j]} :: KERNEL_PDE < i < 1023 && 0 <= j < ENTRIES ==> !Present(mem[KernelTable(i)][j]))
    && (forall j :: 256 <= j < ENTRIES ==> !Present(mem[KernelTable(KERNEL_PDE)][j]))
  }

  function AllClear(n: nat): (r: seq<bool>)
    ensures |r| == n && forall i :: 0 <= i < n ==> !r[i]
  {
    seq(n, _ => false)
  }

  function InitialSpace(mem: seq<seq<nat>>, allMem: nat): Space {
    var p := PoolPlan(allMem);
    Space(mem, USED_PAGES, USED_PAGES + p.kernelPages, AllClear(p.kBits), AllClear(p.uBits), AllClear(p.kBits), map[], map[])
  }

  /** After mem_pool_init every frame of both pools and every page of the kernel heap is free, there is no
      process, and the invariant holds. */
  lemma InitKeepsInv(mem: seq<seq<nat>>, allMem: nat)
    requires Loaded(mem, allMem)
    ensures Inv(InitialSpace(mem, allMem))
    ensures var s, p := InitialSpace(mem, allMem), PoolPlan(allMem);
            && s.mem == mem && s.kStart == 0x200 && s.uStart == 0x200 + p.kernelPages && s.uVaddr == map[]
            && |s.kPool| == |s.kVaddr| == p.kBits && |s.uPool| == p.uBits
            && (forall i :: 0 <= i < p.kBits ==> !s.kPool[i] && !s.kVaddr[i]) && forall i :: 0 <= i < p.uBits ==> !s.uPool[i]
  {
    var s := InitialSpace(mem, allMem);
    PlanFits(allMem);
    assert KernelHalf(s, KERNEL_DIR);
    forall f ensures FrameOk(s, f) {}
    forall d ensures DirOk(s, d) {}
    forall d, i ensures PdeOk(s, d, i) {}
    forall t, j ensures PteOk(s, t, j) {}
    forall page ensures KernelPteOk(s, page) { if HeapPage(page) { NothingMapped(mem, allMem, page); } }
  }

  lemma NothingMapped(mem: seq<seq<nat>>, allMem: nat, page: nat)
    requires Loaded(mem, allMem) && HeapPage(page)
    requires Geometry(InitialSpace(mem, allMem))
    ensures !Present(KernelPte(InitialSpace(mem, allMem), page))
  {
    var i, j := TableIndex(page), SlotIndex(page);
    assert page == i * ENTRIES + j;
    assert i == KERNEL_PDE ==> j >= 256;
    assert mem[KernelTable(i)][j] == KernelPte(InitialSpace(mem, allMem), page);
  }

  /** The whole life of the memory manager, from mem_pool_init on. */
  lemma LifeIsSafe(mem: seq<seq<nat>>, allMem: nat, qs: seq<Request>, r: Space)
    requires Loaded(mem, allMem) && Inv(InitialSpace(mem, allMem)) && Reaches(InitialSpace(mem, allMem), qs, r)
    ensures Inv(r)
    ensures |r.kPool| - FreeCount(r.kPool) == |KernelMappings(r)| + |TableMappings(r)|
    ensures |r.uPool| - FreeCount(r.uPool) == |UserMappings(r)|
  {
    RunsAreSafe(InitialSpace(mem, allMem), qs, r);
  }
}
