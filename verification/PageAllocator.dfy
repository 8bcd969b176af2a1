/**
  malloc_page, mfree_page and their relatives (kernel/memory.c:65-440), as functions of the whole
  memory state. Every function here starts from a state that satisfies the paging invariant and ends
  in one, so the invariant holds after any run of them, including runs in which allocations fail
  half-way: malloc_page does not undo what it has done.
 */
module PageAllocator {
  import opened Outcomes
  import opened Bitmap
  import opened Paging

  // ---------- The page tables and the uses of frames say the same ----------

  predicate HeapPage(page: nat) {
    KERNEL_HEAP <= page < 1023 * ENTRIES
  }

  /** What the processor sees of the kernel heap, under any directory, is what frames are used for. */
  lemma KernelWalk(s: Space, dir: nat, page: nat, f: nat)
    requires Inv(s) && (dir == KERNEL_DIR || dir in s.uVaddr) && HeapPage(page)
    ensures dir < |s.mem| && (Walk(s.mem, dir, page) == Some(f) <==> f in s.owner && s.owner[f] == KernelPage(page))
  {
    if dir in s.uVaddr {
      DirFrame(s, dir);
    }
    assert KernelHalf(s, dir);
    assert KernelPteOk(s, page) && FrameOk(s, f);
    assert s.mem[dir][TableIndex(page)] == Entry(KernelTable(TableIndex(page)));
  }

  lemma UserWalk(s: Space, d: nat, page: nat, f: nat)
    requires Inv(s) && d in s.uVaddr && page < KERNEL_PDE * ENTRIES
    ensures d < |s.mem| && (Walk(s.mem, d, page) == Some(f) <==> f in s.owner && s.owner[f] == UserPage(d, page))
  {
    DirFrame(s, d);
    assert FrameOk(s, f);
    if Present(s.mem[d][TableIndex(page)]) {
      TableOwned(s, d, page);
      var t := TableFrame(s, d, page);
      assert PteOk(s, t, SlotIndex(page));
      }
  }

  /** No two frames have the same use. */
  lemma OneFramePerUse(s: Space, f: nat, g: nat)
    requires Inv(s) && f in s.owner && g in s.owner && s.owner[f] == s.owner[g]
    ensures f == g
  {
    assert FrameOk(s, f) && FrameOk(s, g);
  }

  /** A page that no frame is used for has no present entry. */
  lemma KernelUnmapped(s: Space, page: nat)
    requires Inv(s) && HeapPage(page) && KernelPage(page) !in s.owner.Values
    ensures !Present(KernelPte(s, page))
  {
    var f := FrameOf(KernelPte(s, page));
    assert KernelPteOk(s, page);
    assert f in s.owner ==> s.owner[f] in s.owner.Values;
  }

  lemma UserUnmapped(s: Space, d: nat, page: nat)
    requires Inv(s) && d in s.uVaddr && page < KERNEL_PDE * ENTRIES && UserPage(d, page) !in s.owner.Values
    requires d < |s.mem| && Present(s.mem[d][TableIndex(page)]) && TableFrame(s, d, page) < |s.mem|
    ensures !Present(s.mem[TableFrame(s, d, page)][SlotIndex(page)])
  {
    var f := FrameOf(s.mem[TableFrame(s, d, page)][SlotIndex(page)]);
    UserWalk(s, d, page, f);
    assert f in s.owner ==> s.owner[f] in s.owner.Values;
  }

  // ---------- Reserving virtual pages ----------

  /** The page's bit is set and no frame is mapped there. */
  ghost predicate KernelHole(s: Space, page: nat) {
    && KERNEL_HEAP <= page < KERNEL_HEAP + |s.kVaddr| && s.kVaddr[page - KERNEL_HEAP]
    && KernelPage(page) !in s.owner.Values
  }

  ghost predicate UserHole(s: Space, d: nat, page: nat) {
    && d in s.uVaddr && |s.uVaddr[d]| == USER_PAGES && USER_BASE <= page < USER_BASE + USER_PAGES && s.uVaddr[d][page - USER_BASE]
    && UserPage(d, page) !in s.owner.Values
  }

  ghost predicate KernelReserved(s: Space, page: nat, n: nat) {
    forall p: nat {:trigger KernelHole(s, p)} :: page <= p < page + n ==> KernelHole(s, p)
  }

  ghost predicate UserReserved(s: Space, d: nat, page: nat, n: nat) {
    forall p: nat {:trigger UserHole(s, d, p)} :: page <= p < page + n ==> UserHole(s, d, p)
  }

  /** vaddr_get(PF_KERNEL, n) after the scan. */
  function ReserveKernel(s: Space, start: nat, n: nat): Space
    requires start + n <= |s.kVaddr|
  {
    s.(kVaddr := SetRange(s.kVaddr, start, n, true))
  }

  function ReserveUser(s: Space, d: nat, start: nat, n: nat): Space
    requires d in s.uVaddr && start + n <= |s.uVaddr[d]|
  {
    s.(uVaddr := s.uVaddr[d := SetRange(s.uVaddr[d], start, n, true)])
  }

  lemma ReserveKernelKeepsInv(s: Space, start: nat, n: nat)
    requires Inv(s) && ClearRun(s.kVaddr, start, n)
    ensures Inv(ReserveKernel(s, start, n)) && KernelReserved(ReserveKernel(s, start, n), KERNEL_HEAP + start, n)
  {
    var r := ReserveKernel(s, start, n);
    forall f | f in s.owner && s.owner[f].KernelPage?
      ensures KERNEL_HEAP <= s.owner[f].page < KERNEL_HEAP + |s.kVaddr| && s.kVaddr[s.owner[f].page - KERNEL_HEAP]
    {
      assert FrameOk(s, f);
    }
    KernelBitsKeepInv(s, r.kVaddr);
  }

  lemma ReserveUserKeepsInv(s: Space, d: nat, start: nat, n: nat)
    requires Inv(s) && d in s.uVaddr && ClearRun(s.uVaddr[d], start, n)
    ensures Inv(ReserveUser(s, d, start, n)) && UserReserved(ReserveUser(s, d, start, n), d, USER_BASE + start, n)
  {
    var r := ReserveUser(s, d, start, n);
    forall f | f in s.owner && s.owner[f].UserPage? && s.owner[f].dir == d
      ensures USER_BASE <= s.owner[f].page < USER_BASE + USER_PAGES && s.uVaddr[d][s.owner[f].page - USER_BASE]
    {
      assert FrameOk(s, f);
    }
    UserBitsKeepInv(s, d, r.uVaddr[d]);
  }

  // ---------- Mapping a run of pages ----------

  /** How the loop of malloc_page ends: every page is mapped; or palloc ran out of frames, and the
      pages before stay mapped; or page_table_add had no frame for a page table. */
  datatype Mapping = Done(s: Space) | NoFrame(s: Space) | NoTable

  lemma MapKernelStep(s: Space, page: nat, n: nat, g: nat)
    requires Inv(s) && KernelReserved(s, page, n) && n > 0 && KernelFrame(s, g) && !s.kPool[g - s.kStart]
    ensures HeapPage(page) && Inv(MapKernel(s, page, g)) && KernelReserved(MapKernel(s, page, g), page + 1, n - 1)
  {
    assert KernelHole(s, page);
    KernelUnmapped(s, page);
    FreeFrame(s, g);
    MapKernelKeepsInv(s, page, g);
    var r := MapKernel(s, page, g);
    forall p: nat | page + 1 <= p < page + n
      ensures KernelHole(r, p)
    {
      assert KernelHole(s, p);
    }
  }

  /** The loop of malloc_page for PF_KERNEL; the kernel's page tables always exist. */
  ghost function MapKernelPages(s: Space, page: nat, n: nat): (r: Mapping)
    requires Inv(s) && KernelReserved(s, page, n)
    ensures !r.NoTable? && Inv(r.s) && r.s.kVaddr == s.kVaddr && r.s.uVaddr == s.uVaddr && r.s.uPool == s.uPool
    decreases n
  {
    if n == 0 then Done(s)
    else match FirstFree(s.kPool)
      case None => NoFrame(s)
      case Some(b) =>
        MapKernelStep(s, page, n, s.kStart + b);
        MapKernelPages(MapKernel(s, page, s.kStart + b), page + 1, n - 1)
  }

  /** page_table_add up to the store of the entry: the page table exists, or is taken from the
      kernel pool. */
  ghost function WithTable(s: Space, d: nat, page: nat): Option<Space>
    requires Inv(s) && d in s.uVaddr && page < KERNEL_PDE * ENTRIES
  {
    DirFrame(s, d);
    if Present(s.mem[d][TableIndex(page)]) then Some(s)
    else match FirstFree(s.kPool)
      case None => None
      case Some(b) => Some(NewTable(s, d, TableIndex(page), s.kStart + b))
  }

  lemma WithTableKeeps(s: Space, d: nat, page: nat)
    requires Inv(s) && d in s.uVaddr && page < KERNEL_PDE * ENTRIES && WithTable(s, d, page).Some?
    ensures var t := WithTable(s, d, page).value;
            && Inv(t) && d < |t.mem| && t.uVaddr == s.uVaddr && t.uPool == s.uPool && t.uStart == s.uStart && t.kVaddr == s.kVaddr
            && Present(t.mem[d][TableIndex(page)]) && TableFrame(t, d, page) < |t.mem|
            && (forall use :: use in t.owner.Values && !use.Table? ==> use in s.owner.Values)
  {
    DirFrame(s, d);
    if Present(s.mem[d][TableIndex(page)]) {
      TableOwned(s, d, page);
    } else {
      var f := s.kStart + FirstFree(s.kPool).value;
      NewTableKeepsInv(s, d, TableIndex(page), f);
      NewTableGeometry(s, d, TableIndex(page), f);
      TableOwned(WithTable(s, d, page).value, d, page);
    }
  }

  /** The same without a frame, in a kernel built without ASSERTs: the page table is put at physical
      address 0, cleared, and given the entry. */
  function NullTable(s: Space, d: nat, page: nat, g: nat): Space
    requires Frames(s.mem) && 0 < d < |s.mem| && UserFrame(s, g) && page < 1023 * ENTRIES
  {
    var mem := SetWord(s.mem, d, TableIndex(page), Entry(0))[0 := Zeros(ENTRIES)];
    s.(mem := SetWord(mem, 0, SlotIndex(page), Entry(g)), uPool := s.uPool[g - s.uStart := true])
  }

  /** This happens whenever a page needs a page table and no kernel frame is free, and then the page
      tables and the pools no longer agree. */
  lemma NullTableBreaksInv(s: Space, d: nat, page: nat, g: nat)
    requires Inv(s) && d in s.uVaddr && page < KERNEL_PDE * ENTRIES && WithTable(s, d, page).None? && UserFrame(s, g)
    ensures 0 < d < |s.mem| && FreeCount(s.kPool) == 0 && !Inv(NullTable(s, d, page, g))
  {
    DirFrame(s, d);
    OwnedFrames(s, d);
    FreeCountZeroIff(s.kPool);
    var r := NullTable(s, d, page, g);
    assert r.mem[d][TableIndex(page)] == Entry(0);
    if Inv(r) {
      ZeroIsNoTable(r, d, TableIndex(page));
    }
  }

  lemma ZeroIsNoTable(r: Space, d: nat, i: nat)
    requires Inv(r) && d in r.uVaddr && d < |r.mem| && i < KERNEL_PDE
    ensures r.mem[d][i] != Entry(0)
  {
    assert PdeOk(r, d, i);
    if r.mem[d][i] == Entry(0) {
      OwnedFrames(r, 0);
    }
  }

  lemma MapUserStep(s: Space, d: nat, page: nat, n: nat, g: nat)
    requires Inv(s) && UserReserved(s, d, page, n) && n > 0 && UserFrame(s, g) && !s.uPool[g - s.uStart]
    requires UserHole(s, d, page) && WithTable(s, d, page).Some?
    ensures var t := WithTable(s, d, page).value;
            && Inv(t) && Geometry(t) && t.uVaddr == s.uVaddr && t.uPool == s.uPool && CanMapUser(t, d, page, g) && Inv(MapUser(t, d, page, g)) && UserReserved(MapUser(t, d, page, g), d, page + 1, n - 1)
  {
    assert UserHole(s, d, page);
    WithTableKeeps(s, d, page);
    var t := WithTable(s, d, page).value;
    UserUnmapped(t, d, page);
    FreeFrame(t, g);
    MapUserKeepsInv(t, d, page, g);
    var r := MapUser(t, d, page, g);
    forall p: nat | page + 1 <= p < page + n
      ensures UserHole(r, d, p)
    {
      assert UserHole(s, d, p);
    }
  }

  /** The loop of malloc_page for PF_USER, in the process whose directory is d. */
  ghost function MapUserPages(s: Space, d: nat, page: nat, n: nat): (r: Mapping)
    requires Inv(s) && UserReserved(s, d, page, n)
    ensures !r.NoTable? ==> Inv(r.s) && r.s.kVaddr == s.kVaddr && r.s.uVaddr == s.uVaddr
    decreases n
  {
    if n == 0 then Done(s)
    else match FirstFree(s.uPool)
      case None => NoFrame(s)
      case Some(b) =>
        assert UserHole(s, d, page);
        if WithTable(s, d, page).None? then NoTable else
        MapUserStep(s, d, page, n, s.uStart + b);
        MapUserPages(MapUser(WithTable(s, d, page).value, d, page, s.uStart + b), d, page + 1, n - 1)
  }

  // ---------- What the loop of malloc_page does ----------

  function Min(a: nat, b: nat): nat {
    if a < b then a else b
  }

  /** Frame f keeps its use from s to r, and its contents unless it is a page table or a directory. */
  ghost predicate Kept(s: Space, r: Space, f: nat) {
    f in s.owner ==>
      && f in r.owner && r.owner[f] == s.owner[f]
      && (!s.owner[f].Table? && f !in s.uVaddr && f < |s.mem| && f < |r.mem| ==> r.mem[f] == s.mem[f])
  }

  /** From s to r frames were only taken. */
  ghost predicate Extends(s: Space, r: Space) {
    && |r.mem| == |s.mem| && r.kStart == s.kStart && r.uStart == s.uStart && |r.kPool| == |s.kPool| && |r.uPool| == |s.uPool|
    && forall f {:trigger Kept(s, r, f)} :: Kept(s, r, f)
  }

  lemma ExtendsTransitive(s: Space, t: Space, r: Space)
    requires Extends(s, t) && Extends(t, r) && t.uVaddr == s.uVaddr
    ensures Extends(s, r)
  {
    forall f ensures Kept(s, r, f) {
      assert Kept(s, t, f) && Kept(t, r, f);
    }
  }

  ghost function KernelUses(page: nat, k: nat): set<Use> {
    set p: nat | page <= p < page + k :: KernelPage(p)
  }

  ghost function PageUses(d: nat, page: nat, n: nat): set<Use> {
    set p: nat | page <= p < page + n :: UserPage(d, p)
  }

  lemma PageUsesStep(d: nat, page: nat, k: nat)
    ensures PageUses(d, page, 0) == {} && PageUses(d, page, k + 1) == {UserPage(d, page)} + PageUses(d, page + 1, k)
  {
    assert UserPage(d, page) in PageUses(d, page, k + 1);
  }

  /** Pages `page` to `page + k - 1` of process d, and the page tables that hold their entries. */
  ghost function UserUses(d: nat, page: nat, k: nat): set<Use> {
    PageUses(d, page, k) + (set p: nat | page <= p < page + k :: Table(d, TableIndex(p)))
  }

  lemma KernelUsesStep(page: nat, k: nat)
    ensures KernelUses(page, 0) == {} && KernelUses(page, k + 1) == {KernelPage(page)} + KernelUses(page + 1, k)
  {
    assert KernelPage(page) in KernelUses(page, k + 1);
  }

  lemma UserUsesStep(d: nat, page: nat, k: nat)
    ensures UserUses(d, page, 0) == {}
    ensures UserUses(d, page, k + 1) == {UserPage(d, page), Table(d, TableIndex(page))} + UserUses(d, page + 1, k)
  {
    assert UserPage(d, page) in UserUses(d, page, k + 1) && Table(d, TableIndex(page)) in UserUses(d, page, k + 1);
  }

  lemma ValuesUpdate(m: map<nat, Use>, g: nat, use: Use)
    requires g !in m
    ensures m[g := use].Values == m.Values + {use}
  {
    var r := m[g := use];
    assert r[g] == use;
    forall u | u in m.Values
      ensures u in r.Values
    {
      var f :| f in m && m[f] == u;
      assert r[f] == u;
    }
  }

  lemma MapKernelExtends(s: Space, page: nat, n: nat, g: nat)
    requires Inv(s) && KernelReserved(s, page, n) && n > 0 && KernelFrame(s, g) && !s.kPool[g - s.kStart]
    ensures HeapPage(page) && Extends(s, MapKernel(s, page, g))
    ensures MapKernel(s, page, g).owner.Values == s.owner.Values + {KernelPage(page)}
    ensures FreeCount(MapKernel(s, page, g).kPool) == FreeCount(s.kPool) - 1
  {
    MapKernelStep(s, page, n, g);
    FreeFrame(s, g);
    FreeCountUpdate(s.kPool, g - s.kStart, true);
    KernelStoreReads(s, MapKernel(s, page, g), page, Entry(g), page);
    ValuesUpdate(s.owner, g, KernelPage(page));
  }

  lemma MapKernelStop(s: Space, page: nat, n: nat)
    requires Inv(s) && KernelReserved(s, page, n) && (n == 0 || FreeCount(s.kPool) == 0)
    ensures MapKernelPages(s, page, n) == if n == 0 then Done(s) else NoFrame(s)
    ensures Extends(s, s)
  {
    FreeCountZeroIff(s.kPool);
  }

  lemma MapKernelUnfold(s: Space, page: nat, n: nat) returns (t: Space)
    requires Inv(s) && KernelReserved(s, page, n) && n > 0 && FreeCount(s.kPool) > 0
    ensures Inv(t) && KernelReserved(t, page + 1, n - 1) && MapKernelPages(s, page, n) == MapKernelPages(t, page + 1, n - 1)
    ensures Extends(s, t) && t.owner.Values == s.owner.Values + {KernelPage(page)} && t.uVaddr == s.uVaddr
    ensures FreeCount(t.kPool) == FreeCount(s.kPool) - 1
  {
    FreeCountZeroIff(s.kPool);
    var g := s.kStart + FirstFree(s.kPool).value;
    MapKernelStep(s, page, n, g);
    MapKernelExtends(s, page, n, g);
    t := MapKernel(s, page, g);
  }

  /** malloc_page(PF_KERNEL) maps every page when there are frames for all of them, and otherwise as
      many as there are frames for. Those stay mapped although the caller is told NULL. */
  lemma {:induction false} MapKernelEffect(s: Space, page: nat, n: nat, k: nat)
    requires Inv(s) && KernelReserved(s, page, n) && k == if n < FreeCount(s.kPool) then n else FreeCount(s.kPool)
    ensures var r := MapKernelPages(s, page, n);
            && (r.Done? <==> n <= FreeCount(s.kPool)) && FreeCount(r.s.kPool) == FreeCount(s.kPool) - k
            && Extends(s, r.s) && r.s.owner.Values == s.owner.Values + KernelUses(page, k)
    decreases n
  {
    hide *;
    KernelUsesStep(page, 0);
    if n == 0 || FreeCount(s.kPool) == 0 {
      MapKernelStop(s, page, n);
    } else {
      var t := MapKernelUnfold(s, page, n);
      MapKernelEffect(t, page + 1, n - 1, k - 1);
      ExtendsTransitive(s, t, MapKernelPages(t, page + 1, n - 1).s);
      KernelUsesStep(page, k - 1);
    }
  }

  // ---------- When a page table can be missing ----------

  /** The page tables that process d has. */
  ghost function Tables(s: Space, d: nat): set<nat> {
    set i: nat | i < KERNEL_PDE && d < |s.mem| && i < |s.mem[d]| && Present(s.mem[d][i])
  }

  /** How many page tables mapping n pages from `page` on needs, given the ones there are. */
  function Missing(tables: set<nat>, page: nat, n: nat): nat
    decreases n
  {
    if n == 0 then 0
    else (if TableIndex(page) in tables then 0 else 1) + Missing(tables + {TableIndex(page)}, page + 1, n - 1)
  }

  lemma WithTableExtends(s: Space, d: nat, page: nat)
    requires Inv(s) && d in s.uVaddr && page < KERNEL_PDE * ENTRIES && WithTable(s, d, page).Some?
    ensures var t := WithTable(s, d, page).value;
            && Extends(s, t) && t.owner.Values == s.owner.Values + {Table(d, TableIndex(page))}
            && FreeCount(t.kPool) == FreeCount(s.kPool) - (if TableIndex(page) in Tables(s, d) then 0 else 1)
            && Tables(t, d) == Tables(s, d) + {TableIndex(page)}
  {
    DirFrame(s, d);
    var i := TableIndex(page);
    if Present(s.mem[d][i]) {
      TableOwned(s, d, page);
      assert Table(d, i) in s.owner.Values;
    } else {
      var f := s.kStart + FirstFree(s.kPool).value;
      NewTableGeometry(s, d, i, f);
      FreeCountUpdate(s.kPool, f - s.kStart, true);
      ValuesUpdate(s.owner, f, Table(d, i));
    }
  }

  lemma MapUserExtends(s: Space, d: nat, page: nat, g: nat)
    requires Inv(s) && CanMapUser(s, d, page, g)
    ensures var r := MapUser(s, d, page, g);
            && Extends(s, r) && r.owner.Values == s.owner.Values + {UserPage(d, page)} && r.kPool == s.kPool
            && Tables(r, d) == Tables(s, d) && FreeCount(r.uPool) == FreeCount(s.uPool) - 1
  {
    FreeFrame(s, g);
    TableOwned(s, d, page);
    FreeCountUpdate(s.uPool, g - s.uStart, true);
    ValuesUpdate(s.owner, g, UserPage(d, page));
  }

  lemma MapUserStop(s: Space, d: nat, page: nat, n: nat)
    requires Inv(s) && UserReserved(s, d, page, n) && (n == 0 || FreeCount(s.uPool) == 0)
    ensures MapUserPages(s, d, page, n) == if n == 0 then Done(s) else NoFrame(s)
    ensures Extends(s, s)
  {
    FreeCountZeroIff(s.uPool);
  }

  lemma MapUserNoTable(s: Space, d: nat, page: nat, n: nat)
    requires Inv(s) && UserReserved(s, d, page, n) && n > 0 && FreeCount(s.uPool) > 0
    requires d in s.uVaddr && page < KERNEL_PDE * ENTRIES && WithTable(s, d, page).None?
    ensures MapUserPages(s, d, page, n).NoTable? && FreeCount(s.kPool) == 0
    ensures TableIndex(page) !in Tables(s, d)
  {
    FreeCountZeroIff(s.uPool);
    FreeCountZeroIff(s.kPool);
  }

  /** One turn of the loop, when the page table is there or can be made. */
  lemma MapUserTurn(s: Space, d: nat, page: nat, n: nat) returns (t: Space, g: nat, u: Space)
    requires Inv(s) && UserReserved(s, d, page, n) && n > 0 && FreeCount(s.uPool) > 0
    requires d in s.uVaddr && page < KERNEL_PDE * ENTRIES && WithTable(s, d, page).Some?
    ensures WithTable(s, d, page) == Some(t) && Inv(t) && Geometry(t) && CanMapUser(t, d, page, g) && u == MapUser(t, d, page, g)
    ensures Inv(u) && UserReserved(u, d, page + 1, n - 1) && t.uVaddr == s.uVaddr && u.uVaddr == s.uVaddr
    ensures MapUserPages(s, d, page, n) == MapUserPages(u, d, page + 1, n - 1) && t.uPool == s.uPool
  {
    hide TableIndex, SlotIndex, Entry, FrameOf, Present, PageAt, Inv, FreeCount;
    FreeCountZeroIff(s.uPool);
    FirstHole(s, d, page, n);
    g := s.uStart + FirstFree(s.uPool).value;
    MapUserStep(s, d, page, n, g);
    t := WithTable(s, d, page).value;
    u := MapUser(t, d, page, g);
  }

  lemma MapUserUnfold(s: Space, d: nat, page: nat, n: nat) returns (u: Space)
    requires Inv(s) && UserReserved(s, d, page, n) && n > 0 && FreeCount(s.uPool) > 0
    requires d in s.uVaddr && page < KERNEL_PDE * ENTRIES && WithTable(s, d, page).Some?
    ensures Inv(u) && UserReserved(u, d, page + 1, n - 1) && MapUserPages(s, d, page, n) == MapUserPages(u, d, page + 1, n - 1)
    ensures Extends(s, u) && u.uVaddr == s.uVaddr && d in u.uVaddr
    ensures u.owner.Values == s.owner.Values + {UserPage(d, page), Table(d, TableIndex(page))}
    ensures FreeCount(u.uPool) == FreeCount(s.uPool) - 1
    ensures Tables(u, d) == Tables(s, d) + {TableIndex(page)}
    ensures FreeCount(u.kPool) == FreeCount(s.kPool) - (if TableIndex(page) in Tables(s, d) then 0 else 1)
  {
    hide *;
    var t, g, u' := MapUserTurn(s, d, page, n);
    WithTableExtends(s, d, page);
    MapUserExtends(t, d, page, g);
    ExtendsTransitive(s, t, u');
    u := u';
  }

  lemma MissingStep(tables: set<nat>, page: nat, k: nat)
    ensures Missing(tables, page, 0) == 0
    ensures Missing(tables, page, k + 1) == (if TableIndex(page) in tables then 0 else 1) + Missing(tables + {TableIndex(page)}, page + 1, k)
  {}

  /** Exactly when page_table_add finds no frame for a page table: the pages that get a frame of
      their own need more tables than the kernel pool has frames. In every other case as many pages
      are mapped as there are frames for. */
  lemma {:induction false} MapUserEffect(s: Space, d: nat, page: nat, n: nat, k: nat)
    requires Inv(s) && UserReserved(s, d, page, n) && d in s.uVaddr
    requires k == if n < FreeCount(s.uPool) then n else FreeCount(s.uPool)
    ensures var r := MapUserPages(s, d, page, n);
            && (r.NoTable? <==> Missing(Tables(s, d), page, k) > FreeCount(s.kPool))
            && (!r.NoTable? ==>
                  && (r.Done? <==> n <= FreeCount(s.uPool)) && FreeCount(r.s.uPool) == FreeCount(s.uPool) - k
                  && FreeCount(r.s.kPool) == FreeCount(s.kPool) - Missing(Tables(s, d), page, k)
                  && Extends(s, r.s) && r.s.owner.Values == s.owner.Values + UserUses(d, page, k))
    decreases n
  {
    hide *;
    UserUsesStep(d, page, 0);
    MissingStep(Tables(s, d), page, 0);
    if n == 0 || FreeCount(s.uPool) == 0 {
      MapUserStop(s, d, page, n);
    } else {
      FirstHole(s, d, page, n);
      MissingStep(Tables(s, d), page, k - 1);
      if WithTable(s, d, page).None? {
        MapUserNoTable(s, d, page, n);
      } else {
        var u := MapUserUnfold(s, d, page, n);
        MapUserEffect(u, d, page + 1, n - 1, k - 1);
        UserUsesStep(d, page, k - 1);
        var r := MapUserPages(u, d, page + 1, n - 1);
        if !r.NoTable? {
          ExtendsTransitive(s, u, r.s);
        }
      }
    }
  }

  lemma FirstHole(s: Space, d: nat, page: nat, n: nat)
    requires UserReserved(s, d, page, n) && n > 0
    ensures UserHole(s, d, page) && d in s.uVaddr && page < KERNEL_PDE * ENTRIES
  {
    assert UserHole(s, d, page);
  }

  // ---------- Unmapping a run of pages ----------

  /** Page `page` of the kernel heap is mapped, and not to the page directory of a process. */
  ghost predicate KernelHeld(s: Space, page: nat) {
    && Frames(s.mem) && KERNEL_DIR < |s.mem| && HeapPage(page)
    && Walk(s.mem, KERNEL_DIR, page).Some? && Walk(s.mem, KERNEL_DIR, page).value !in s.uVaddr
  }

  ghost predicate UserHeld(s: Space, d: nat, page: nat) {
    && Frames(s.mem) && d < |s.mem| && d in s.uVaddr && page < KERNEL_PDE * ENTRIES && Walk(s.mem, d, page).Some?
  }

  ghost predicate AllKernelHeld(s: Space, page: nat, n: nat) {
    forall p: nat {:trigger KernelHeld(s, p)} :: page <= p < page + n ==> KernelHeld(s, p)
  }

  ghost predicate AllUserHeld(s: Space, d: nat, page: nat, n: nat) {
    forall p: nat {:trigger UserHeld(s, d, p)} :: page <= p < page + n ==> UserHeld(s, d, p)
  }

  lemma UnmapKernelStep(s: Space, page: nat, n: nat)
    requires Inv(s) && AllKernelHeld(s, page, n) && n > 0
    ensures KernelHeld(s, page)
    ensures var g := Walk(s.mem, KERNEL_DIR, page).value;
            && g in s.owner && s.owner[g] == KernelPage(page) && KernelFrame(s, g) && Geometry(s)
            && Inv(UnmapKernel(s, page, g)) && AllKernelHeld(UnmapKernel(s, page, g), page + 1, n - 1)
  {
    assert KernelHeld(s, page);
    var g := Walk(s.mem, KERNEL_DIR, page).value;
    KernelWalk(s, KERNEL_DIR, page, g);
    UnmapKernelKeepsInv(s, page, g);
    var r := UnmapKernel(s, page, g);
    forall p: nat | page + 1 <= p < page + n
      ensures KernelHeld(r, p)
    {
      assert KernelHeld(s, p);
      var f := Walk(s.mem, KERNEL_DIR, p).value;
      KernelWalk(s, KERNEL_DIR, p, f);
      KernelWalk(r, KERNEL_DIR, p, f);
    }
  }

  lemma UnmapUserStep(s: Space, d: nat, page: nat, n: nat)
    requires Inv(s) && AllUserHeld(s, d, page, n) && n > 0
    ensures UserHeld(s, d, page)
    ensures var g := Walk(s.mem, d, page).value;
            && g in s.owner && s.owner[g] == UserPage(d, page) && UserFrame(s, g) && TableFrame(s, d, page) < |s.mem|
            && Inv(UnmapUser(s, d, page, g)) && AllUserHeld(UnmapUser(s, d, page, g), d, page + 1, n - 1)
  {
    assert UserHeld(s, d, page);
    var g := Walk(s.mem, d, page).value;
    UserWalk(s, d, page, g);
    UnmapUserKeepsInv(s, d, page, g);
    var r := UnmapUser(s, d, page, g);
    forall p: nat | page + 1 <= p < page + n
      ensures UserHeld(r, d, p)
    {
      assert UserHeld(s, d, p);
      var f := Walk(s.mem, d, p).value;
      UserWalk(s, d, p, f);
      UserWalk(r, d, p, f);
    }
  }

  /** The loop of mfree_page over kernel pages: addr_v2p, pfree, page_table_pte_remove. */
  ghost function UnmapKernelPages(s: Space, page: nat, n: nat): (r: Space)
    requires Inv(s) && AllKernelHeld(s, page, n)
    ensures Inv(r)
    decreases n
  {
    if n == 0 then s
    else
      UnmapKernelStep(s, page, n);
      UnmapKernelPages(UnmapKernel(s, page, Walk(s.mem, KERNEL_DIR, page).value), page + 1, n - 1)
  }

  ghost function UnmapUserPages(s: Space, d: nat, page: nat, n: nat): (r: Space)
    requires Inv(s) && AllUserHeld(s, d, page, n)
    ensures Inv(r)
    decreases n
  {
    if n == 0 then s
    else
      UnmapUserStep(s, d, page, n);
      UnmapUserPages(UnmapUser(s, d, page, Walk(s.mem, d, page).value), d, page + 1, n - 1)
  }

  // ---------- What the loop of mfree_page does ----------

  ghost function Minus(owner: map<nat, Use>, uses: set<Use>): map<nat, Use> {
    map f | f in owner && owner[f] !in uses :: owner[f]
  }

  lemma MinusMinus(owner: map<nat, Use>, a: set<Use>, b: set<Use>)
    ensures Minus(owner, {}) == owner && Minus(Minus(owner, a), b) == Minus(owner, a + b)
  {}

  lemma MinusOne(s: Space, g: nat)
    requires Inv(s) && g in s.owner
    ensures s.owner - {g} == Minus(s.owner, {s.owner[g]})
  {
    forall f | f in s.owner && s.owner[f] == s.owner[g]
      ensures f == g
    {
      OneFramePerUse(s, f, g);
    }
  }

  predicate SameBitmaps(s: Space, r: Space) {
    && r.kVaddr == s.kVaddr && r.uVaddr == s.uVaddr && r.kStart == s.kStart && r.uStart == s.uStart
    && |r.kPool| == |s.kPool| && |r.uPool| == |s.uPool| && |r.mem| == |s.mem|
  }

  lemma UnmapKernelUnfold(s: Space, page: nat, n: nat) returns (t: Space)
    requires Inv(s) && AllKernelHeld(s, page, n) && n > 0
    ensures Inv(t) && AllKernelHeld(t, page + 1, n - 1) && UnmapKernelPages(s, page, n) == UnmapKernelPages(t, page + 1, n - 1)
    ensures t.owner == Minus(s.owner, {KernelPage(page)}) && SameBitmaps(s, t)
  {
    UnmapKernelStep(s, page, n);
    var g := Walk(s.mem, KERNEL_DIR, page).value;
    MinusOne(s, g);
    t := UnmapKernel(s, page, g);
  }

  lemma UnmapUserUnfold(s: Space, d: nat, page: nat, n: nat) returns (t: Space)
    requires Inv(s) && AllUserHeld(s, d, page, n) && n > 0
    ensures Inv(t) && AllUserHeld(t, d, page + 1, n - 1) && UnmapUserPages(s, d, page, n) == UnmapUserPages(t, d, page + 1, n - 1)
    ensures t.owner == Minus(s.owner, {UserPage(d, page)}) && SameBitmaps(s, t)
  {
    UnmapUserStep(s, d, page, n);
    var g := Walk(s.mem, d, page).value;
    MinusOne(s, g);
    t := UnmapUser(s, d, page, g);
  }

  /** mfree_page releases exactly the frames that were mapped at the pages it is given. */
  lemma {:induction false} UnmapKernelEffect(s: Space, page: nat, n: nat)
    requires Inv(s) && AllKernelHeld(s, page, n)
    ensures UnmapKernelPages(s, page, n).owner == Minus(s.owner, KernelUses(page, n)) && SameBitmaps(s, UnmapKernelPages(s, page, n))
    decreases n
  {
    KernelUsesStep(page, 0);
    if n == 0 {
      MinusMinus(s.owner, {}, {});
    } else {
      var t := UnmapKernelUnfold(s, page, n);
      hide *;
      UnmapKernelEffect(t, page + 1, n - 1);
      KernelUsesStep(page, n - 1);
      MinusMinus(s.owner, {KernelPage(page)}, KernelUses(page + 1, n - 1));
      SameBitmapsTransitive(s, t, UnmapKernelPages(t, page + 1, n - 1));
    }
  }

  lemma SameBitmapsTransitive(s: Space, t: Space, r: Space)
    requires SameBitmaps(s, t) && SameBitmaps(t, r)
    ensures SameBitmaps(s, r)
  {}

  lemma {:induction false} UnmapUserEffect(s: Space, d: nat, page: nat, n: nat)
    requires Inv(s) && AllUserHeld(s, d, page, n)
    ensures UnmapUserPages(s, d, page, n).owner == Minus(s.owner, PageUses(d, page, n)) && SameBitmaps(s, UnmapUserPages(s, d, page, n))
    decreases n
  {
    PageUsesStep(d, page, 0);
    if n == 0 {
      MinusMinus(s.owner, {}, {});
    } else {
      var t := UnmapUserUnfold(s, d, page, n);
      hide *;
      UnmapUserEffect(t, d, page + 1, n - 1);
      PageUsesStep(d, page, n - 1);
      MinusMinus(s.owner, {UserPage(d, page)}, PageUses(d, page + 1, n - 1));
      SameBitmapsTransitive(s, t, UnmapUserPages(t, d, page + 1, n - 1));
    }
  }
}
