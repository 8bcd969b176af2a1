/**
  malloc_page and mfree_page as whole requests (kernel/memory.c:65-93, 163-214 and 359-437): what each
  does, what freeing undoes, and what holds after any run of them.
 */
module PageRequests {
  import opened Outcomes
  import opened Bitmap
  import opened Paging
  import opened PageAllocator

  // ---------- malloc_page ----------

  /** The answer of malloc_page: the first page; or NULL, in whatever state it gave up; or it stored
      a page table at physical address 0, and nothing can be said of the state. */
  datatype Alloc = Got(s: Space, page: nat) | Null(s: Space) | Lost

  /** malloc_page(PF_KERNEL, n). */
  ghost function MallocKernel(s: Space, n: nat): (r: Alloc)
    requires Inv(s)
    ensures !r.Lost? && Inv(r.s)
  {
    match Fit(s.kVaddr, n)
    case None => Null(s)
    case Some(b) =>
      ReserveKernelKeepsInv(s, b, n);
      match MapKernelPages(ReserveKernel(s, b, n), KERNEL_HEAP + b, n)
      case Done(t) => Got(t, KERNEL_HEAP + b)
      case NoFrame(t) => Null(t)
  }

  /** malloc_page(PF_USER, n) in process d. */
  ghost function MallocUser(s: Space, d: nat, n: nat): (r: Alloc)
    requires Inv(s) && d in s.uVaddr
    ensures !r.Lost? ==> Inv(r.s)
  {
    match Fit(s.uVaddr[d], n)
    case None => Null(s)
    case Some(b) =>
      ReserveUserKeepsInv(s, d, b, n);
      match MapUserPages(ReserveUser(s, d, b, n), d, USER_BASE + b, n)
      case Done(t) => Got(t, USER_BASE + b)
      case NoFrame(t) => Null(t)
      case NoTable => Lost
  }

  /** The ASSERT in vaddr_get holds when the last page, the stack, is taken. */
  lemma BelowTheStack(s: Space, d: nat, n: nat)
    requires Inv(s) && d in s.uVaddr && s.uVaddr[d][USER_PAGES - 1] && n > 0 && MallocUser(s, d, n).Got?
    ensures MallocUser(s, d, n).page + n < 0xc0000
  {
    var b := Fit(s.uVaddr[d], n).value;
    RunEndsBefore(s.uVaddr[d], b, n);
  }

  lemma RunEndsBefore(bits: seq<bool>, b: nat, n: nat)
    requires n > 0 && ClearRun(bits, b, n) && bits[|bits| - 1]
    ensures b + n < |bits|
  {}

  /** Exactly when malloc_page(PF_USER) stores a page table at physical address 0, in a kernel built
      without ASSERTs. One built with them has stopped by then (StopsUser). */
  lemma LostIff(s: Space, d: nat, n: nat)
    requires Inv(s) && d in s.uVaddr
    ensures MallocUser(s, d, n).Lost? <==>
            Fit(s.uVaddr[d], n).Some? &&
            Missing(Tables(s, d), USER_BASE + Fit(s.uVaddr[d], n).value, Min(n, FreeCount(s.uPool))) > FreeCount(s.kPool)
  {
    if Fit(s.uVaddr[d], n).Some? {
      var b := Fit(s.uVaddr[d], n).value;
      ReserveUserKeepsInv(s, d, b, n);
      MapUserEffect(ReserveUser(s, d, b, n), d, USER_BASE + b, n, Min(n, FreeCount(s.uPool)));
    }
  }

  // ---------- Where a kernel built with ASSERTs stops ----------

  /** malloc_page(PF_KERNEL, n) meets a full bitmap: no page of the heap is left, or too few frames. */
  ghost predicate StopsKernel(s: Space, n: nat) {
    FreeCount(s.kVaddr) == 0 || (Fit(s.kVaddr, n).Some? && FreeCount(s.kPool) < n)
  }

  /** malloc_page(PF_USER, n) meets a full bitmap: no page of the process is left, or too few frames for
      the pages, or too few for the page tables they need. */
  ghost predicate StopsUser(s: Space, d: nat, n: nat)
    requires d in s.uVaddr
  {
    || FreeCount(s.uVaddr[d]) == 0
    || (Fit(s.uVaddr[d], n).Some?
        && (FreeCount(s.uPool) < n || Missing(Tables(s, d), USER_BASE + Fit(s.uVaddr[d], n).value, n) > FreeCount(s.kPool)))
  }

  /** get_a_page(PF_USER, page) meets one. */
  ghost predicate StopsPage(s: Space, d: nat, page: nat) {
    FreeCount(s.uPool) == 0 || Missing(Tables(s, d), page, 1) > FreeCount(s.kPool)
  }

  /** Short of that, malloc_page fails only when no run of pages is free. */
  lemma StopsKernelIff(s: Space, n: nat)
    requires Inv(s) && n > 0
    ensures MallocKernel(s, n).Got? <==> Fit(s.kVaddr, n).Some? && !StopsKernel(s, n)
    ensures Fit(s.kVaddr, n).Some? ==> FreeCount(s.kVaddr) > 0
  {
    if Fit(s.kVaddr, n).Some? {
      var b := Fit(s.kVaddr, n).value;
      FreeCountZeroIff(s.kVaddr);
      assert !s.kVaddr[b];
      ReserveKernelKeepsInv(s, b, n);
      MapKernelEffect(ReserveKernel(s, b, n), KERNEL_HEAP + b, n, Min(n, FreeCount(s.kPool)));
    }
  }

  lemma StopsUserIff(s: Space, d: nat, n: nat)
    requires Inv(s) && d in s.uVaddr && n > 0
    ensures MallocUser(s, d, n).Got? <==> Fit(s.uVaddr[d], n).Some? && !StopsUser(s, d, n)
    ensures Fit(s.uVaddr[d], n).Some? ==> FreeCount(s.uVaddr[d]) > 0
    ensures MallocUser(s, d, n).Lost? ==> StopsUser(s, d, n)
  {
    hide FreeCount, Missing, Tables, MapUserPages, UserUses, Fit, UserReserved, Extends, Inv;
    LostIff(s, d, n);
    if Fit(s.uVaddr[d], n).Some? {
      var b := Fit(s.uVaddr[d], n).value;
      FreeCountZeroIff(s.uVaddr[d]);
      assert !s.uVaddr[d][b];
      ReserveUserKeepsInv(s, d, b, n);
      MapUserEffect(ReserveUser(s, d, b, n), d, USER_BASE + b, n, Min(n, FreeCount(s.uPool)));
      FewerPagesFewerTables(Tables(s, d), USER_BASE + b, Min(n, FreeCount(s.uPool)), n);
    }
  }

  lemma {:induction false} FewerPagesFewerTables(tables: set<nat>, page: nat, k: nat, n: nat)
    requires k <= n
    ensures Missing(tables, page, k) <= Missing(tables, page, n)
    decreases n
  {
    if k > 0 {
      FewerPagesFewerTables(tables + {TableIndex(page)}, page + 1, k - 1, n - 1);
    }
  }

  // ---------- mfree_page ----------

  lemma KernelHeldBit(s: Space, page: nat)
    requires Inv(s) && KernelHeld(s, page)
    ensures KERNEL_HEAP <= page < KERNEL_HEAP + |s.kVaddr|
  {
    var f := Walk(s.mem, KERNEL_DIR, page).value;
    KernelWalk(s, KERNEL_DIR, page, f);
    assert FrameOk(s, f);
  }

  lemma KernelHeldInRange(s: Space, page: nat, n: nat)
    requires Inv(s) && AllKernelHeld(s, page, n) && n > 0
    ensures KERNEL_HEAP <= page && page + n <= KERNEL_HEAP + |s.kVaddr|
  {
    assert KernelHeld(s, page) && KernelHeld(s, page + n - 1);
    KernelHeldBit(s, page);
    KernelHeldBit(s, page + n - 1);
  }

  lemma UserHeldBit(s: Space, d: nat, page: nat)
    requires Inv(s) && UserHeld(s, d, page)
    ensures d in s.uVaddr && |s.uVaddr[d]| == USER_PAGES && USER_BASE <= page < USER_BASE + USER_PAGES
  {
    var f := Walk(s.mem, d, page).value;
    UserWalk(s, d, page, f);
    assert FrameOk(s, f);
  }

  lemma UserHeldInRange(s: Space, d: nat, page: nat, n: nat)
    requires Inv(s) && AllUserHeld(s, d, page, n) && n > 0
    ensures d in s.uVaddr && USER_BASE <= page && page + n <= USER_BASE + |s.uVaddr[d]|
  {
    assert UserHeld(s, d, page) && UserHeld(s, d, page + n - 1);
    UserHeldBit(s, d, page);
    UserHeldBit(s, d, page + n - 1);
  }

  /** mfree_page(PF_KERNEL, page, n): the frames go back, then vaddr_remove clears the bits. */
  ghost function MfreeKernel(s: Space, page: nat, n: nat): (r: Space)
    requires Inv(s) && AllKernelHeld(s, page, n) && n > 0
    ensures Inv(r)
  {
    KernelHeldInRange(s, page, n);
    UnmapKernelEffect(s, page, n);
    var t := UnmapKernelPages(s, page, n);
    KernelBitsCleared(s, t, page, n);
    t.(kVaddr := SetRange(t.kVaddr, page - KERNEL_HEAP, n, false))
  }

  lemma KernelBitsCleared(s: Space, t: Space, page: nat, n: nat)
    requires Inv(t) && KERNEL_HEAP <= page && page + n <= KERNEL_HEAP + |t.kVaddr|
    requires t.owner == Minus(s.owner, KernelUses(page, n))
    ensures Inv(t.(kVaddr := SetRange(t.kVaddr, page - KERNEL_HEAP, n, false)))
  {
    var bits := SetRange(t.kVaddr, page - KERNEL_HEAP, n, false);
    forall f | f in t.owner && t.owner[f].KernelPage? && KERNEL_HEAP <= t.owner[f].page < KERNEL_HEAP + |bits|
      ensures bits[t.owner[f].page - KERNEL_HEAP]
    {
      assert FrameOk(t, f);
      assert t.owner[f] !in KernelUses(page, n);
    }
    KernelBitsKeepInv(t, bits);
  }

  ghost function MfreeUser(s: Space, d: nat, page: nat, n: nat): (r: Space)
    requires Inv(s) && AllUserHeld(s, d, page, n) && n > 0
    ensures Inv(r)
  {
    UserHeldInRange(s, d, page, n);
    UnmapUserEffect(s, d, page, n);
    var t := UnmapUserPages(s, d, page, n);
    UserBitsCleared(s, t, d, page, n);
    t.(uVaddr := t.uVaddr[d := SetRange(t.uVaddr[d], page - USER_BASE, n, false)])
  }

  lemma UserBitsCleared(s: Space, t: Space, d: nat, page: nat, n: nat)
    requires Inv(t) && d in t.uVaddr && USER_BASE <= page && page + n <= USER_BASE + |t.uVaddr[d]|
    requires t.owner == Minus(s.owner, PageUses(d, page, n))
    ensures Inv(t.(uVaddr := t.uVaddr[d := SetRange(t.uVaddr[d], page - USER_BASE, n, false)]))
  {
    var bits := SetRange(t.uVaddr[d], page - USER_BASE, n, false);
    forall f | f in t.owner && t.owner[f].UserPage? && t.owner[f].dir == d && USER_BASE <= t.owner[f].page < USER_BASE + USER_PAGES
      ensures bits[t.owner[f].page - USER_BASE]
    {
      assert FrameOk(t, f);
      assert t.owner[f] !in PageUses(d, page, n);
    }
    UserBitsKeepInv(t, d, bits);
  }

  // ---------- Freeing undoes allocating ----------

  /** The owner map determines the pool bitmaps. */
  lemma PoolsFromOwner(s: Space, r: Space)
    requires Inv(s) && Inv(r) && r.kStart == s.kStart && r.uStart == s.uStart && |r.kPool| == |s.kPool| && |r.uPool| == |s.uPool|
    ensures (forall f :: KernelFrame(s, f) ==> (f in s.owner <==> f in r.owner)) ==> r.kPool == s.kPool
    ensures (forall f :: UserFrame(s, f) ==> (f in s.owner <==> f in r.owner)) ==> r.uPool == s.uPool
  {
    if forall f :: KernelFrame(s, f) ==> (f in s.owner <==> f in r.owner) {
      forall i | 0 <= i < |s.kPool|
        ensures r.kPool[i] == s.kPool[i]
      {
        assert FrameOk(s, s.kStart + i) && FrameOk(r, s.kStart + i) && KernelFrame(s, s.kStart + i);
      }
    }
    if forall f :: UserFrame(s, f) ==> (f in s.owner <==> f in r.owner) {
      forall i | 0 <= i < |s.uPool|
        ensures r.uPool[i] == s.uPool[i]
      {
        assert FrameOk(s, s.uStart + i) && FrameOk(r, s.uStart + i) && UserFrame(s, s.uStart + i);
      }
    }
  }

  lemma KeptUse(u: Space, r: Space, f: nat)
    requires Extends(u, r) && f in u.owner
    ensures f in r.owner && r.owner[f] in u.owner.Values
  {
    assert Kept(u, r, f);
  }

  lemma NewKernelHeld(s: Space, u: Space, r: Space, page: nat, n: nat)
    requires Inv(s) && Inv(u) && Inv(r) && u.owner == s.owner && u.uVaddr == s.uVaddr && r.uVaddr == s.uVaddr
    requires Extends(u, r) && KernelReserved(u, page, n) && r.owner.Values == u.owner.Values + KernelUses(page, n)
    ensures AllKernelHeld(r, page, n)
  {
    forall p: nat | page <= p < page + n
      ensures KernelHeld(r, p)
    {
      assert KernelHole(u, p);
      assert KernelPage(p) in KernelUses(page, n);
      var f :| f in r.owner && r.owner[f] == KernelPage(p);
      KernelWalk(r, KERNEL_DIR, p, f);
      assert DirOk(s, f);
      if f in u.owner {
        KeptUse(u, r, f);
      }
    }
  }

  lemma NewUserHeld(s: Space, u: Space, r: Space, d: nat, page: nat, n: nat)
    requires Inv(u) && Inv(r) && d in r.uVaddr && d in u.uVaddr
    requires UserReserved(u, d, page, n) && r.owner.Values == u.owner.Values + UserUses(d, page, n)
    ensures AllUserHeld(r, d, page, n)
  {
    forall p: nat | page <= p < page + n
      ensures UserHeld(r, d, p)
    {
      assert UserHole(u, d, p);
      assert UserPage(d, p) in PageUses(d, page, n);
      var f :| f in r.owner && r.owner[f] == UserPage(d, p);
      UserWalk(r, d, p, f);
    }
  }

  lemma OldUseOldFrame(u: Space, r: Space, f: nat)
    requires Inv(r) && Extends(u, r) && f in r.owner && r.owner[f] in u.owner.Values
    ensures f in u.owner
  {
    var g :| g in u.owner && u.owner[g] == r.owner[f];
    assert Kept(u, r, g);
    OneFramePerUse(r, f, g);
  }

  /** When r has the frames of u and others with the given uses, taking those uses away leaves
      exactly the frames of u, and the page tables that came with the others. */
  lemma NewUsesRemoved(u: Space, r: Space, uses: set<Use>)
    requires Inv(r) && Extends(u, r) && u.owner.Values !! uses
    requires forall use :: use in r.owner.Values ==> use in u.owner.Values || use in uses || use.Table?
    ensures forall f :: f in u.owner ==> f in Minus(r.owner, uses) && r.owner[f] == u.owner[f]
    ensures forall f :: f in Minus(r.owner, uses) && !r.owner[f].Table? ==> f in u.owner
  {
    forall f | f in u.owner
      ensures f in Minus(r.owner, uses) && r.owner[f] == u.owner[f]
    {
      assert Kept(u, r, f);
      assert u.owner[f] in u.owner.Values;
    }
    forall f | f in Minus(r.owner, uses) && !r.owner[f].Table?
      ensures f in u.owner
    {
      assert r.owner[f] in r.owner.Values;
      OldUseOldFrame(u, r, f);
    }
  }

  /** How MallocKernel came about. */
  lemma MallocKernelSteps(s: Space, n: nat) returns (u: Space)
    requires Inv(s) && MallocKernel(s, n).Got?
    ensures var r := MallocKernel(s, n);
            && KERNEL_HEAP <= r.page && ClearRun(s.kVaddr, r.page - KERNEL_HEAP, n)
            && u == ReserveKernel(s, r.page - KERNEL_HEAP, n)
            && Inv(u) && KernelReserved(u, r.page, n) && Extends(u, r.s) && u.owner.Values !! KernelUses(r.page, n)
            && r.s.owner.Values == u.owner.Values + KernelUses(r.page, n)
            && r.s.kVaddr == u.kVaddr && r.s.uVaddr == u.uVaddr
  {
    var b := Fit(s.kVaddr, n).value;
    ReserveKernelKeepsInv(s, b, n);
    u := ReserveKernel(s, b, n);
    MapKernelEffect(u, KERNEL_HEAP + b, n, Min(n, FreeCount(s.kPool)));
    forall use | use in KernelUses(KERNEL_HEAP + b, n)
      ensures use !in u.owner.Values
    {
      assert KernelHole(u, use.page);
    }
  }

  /** Pages that malloc_page has just handed out can be freed, and freeing them puts every bitmap
      and the use of every frame back. */
  lemma MfreeUndoesMallocKernel(s: Space, n: nat)
    requires Inv(s) && n > 0 && MallocKernel(s, n).Got?
    ensures var r := MallocKernel(s, n);
            && AllKernelHeld(r.s, r.page, n)
            && var t := MfreeKernel(r.s, r.page, n);
            t.owner == s.owner && t.kPool == s.kPool && t.uPool == s.uPool && t.kVaddr == s.kVaddr && t.uVaddr == s.uVaddr
  {
    hide UnmapKernelPages, MapKernelPages, Fit, MallocKernel, Extends, Inv;
    var u := MallocKernelSteps(s, n);
    var r, page := MallocKernel(s, n).s, MallocKernel(s, n).page;
    NewKernelHeld(s, u, r, page, n);
    UnmapKernelEffect(r, page, n);
    var t := MfreeKernel(r, page, n);
    NewUsesRemoved(u, r, KernelUses(page, n));
    KernelUndone(s, u, r, t, page, n);
  }

  lemma KernelUndone(s: Space, u: Space, r: Space, t: Space, page: nat, n: nat)
    requires Inv(s) && Inv(t) && Extends(u, r) && u.owner == s.owner && u.kVaddr == r.kVaddr && u.uVaddr == r.uVaddr
    requires KERNEL_HEAP <= page && ClearRun(s.kVaddr, page - KERNEL_HEAP, n) && u == ReserveKernel(s, page - KERNEL_HEAP, n)
    requires t.owner == Minus(r.owner, KernelUses(page, n)) && r.owner.Values == u.owner.Values + KernelUses(page, n)
    requires forall f :: f in u.owner ==> f in t.owner && t.owner[f] == u.owner[f]
    requires forall f :: f in t.owner && !t.owner[f].Table? ==> f in u.owner
    requires SameBitmaps(r, t.(kVaddr := r.kVaddr)) && t.kVaddr == SetRange(r.kVaddr, page - KERNEL_HEAP, n, false)
    requires Inv(r)
    ensures t.owner == s.owner && t.kPool == s.kPool && t.uPool == s.uPool && t.kVaddr == s.kVaddr && t.uVaddr == s.uVaddr
  {
    forall f | f in t.owner
      ensures f in u.owner
    {
      assert r.owner[f] in r.owner.Values;
      OldUseOldFrame(u, r, f);
    }
    assert t.owner == s.owner;
    PoolsFromOwner(s, t);
  }

  lemma MallocUserSteps(s: Space, d: nat, n: nat) returns (u: Space)
    requires Inv(s) && d in s.uVaddr && MallocUser(s, d, n).Got?
    ensures var r := MallocUser(s, d, n);
            && USER_BASE <= r.page && ClearRun(s.uVaddr[d], r.page - USER_BASE, n)
            && u == ReserveUser(s, d, r.page - USER_BASE, n)
            && Inv(u) && UserReserved(u, d, r.page, n) && Extends(u, r.s) && u.owner.Values !! PageUses(d, r.page, n)
            && r.s.owner.Values == u.owner.Values + UserUses(d, r.page, n)
            && r.s.kVaddr == u.kVaddr && r.s.uVaddr == u.uVaddr
  {
    var b := Fit(s.uVaddr[d], n).value;
    ReserveUserKeepsInv(s, d, b, n);
    u := ReserveUser(s, d, b, n);
    MapUserEffect(u, d, USER_BASE + b, n, Min(n, FreeCount(s.uPool)));
    forall use | use in PageUses(d, USER_BASE + b, n)
      ensures use !in u.owner.Values
    {
      assert UserHole(u, d, use.page);
    }
  }

  /** For a process the page tables that were made stay, and nothing else. */
  lemma MfreeUndoesMallocUser(s: Space, d: nat, n: nat)
    requires Inv(s) && d in s.uVaddr && n > 0 && MallocUser(s, d, n).Got?
    ensures var r := MallocUser(s, d, n);
            && AllUserHeld(r.s, d, r.page, n)
            && var t := MfreeUser(r.s, d, r.page, n);
            && (forall f :: f in s.owner ==> f in t.owner && t.owner[f] == s.owner[f])
            && (forall f :: f in t.owner && f !in s.owner ==> t.owner[f].Table?)
            && t.uPool == s.uPool && t.kVaddr == s.kVaddr && t.uVaddr == s.uVaddr
  {
    hide UnmapUserPages, MapUserPages, Fit, MallocUser, Extends, Inv;
    var u := MallocUserSteps(s, d, n);
    var r, page := MallocUser(s, d, n).s, MallocUser(s, d, n).page;
    NewUserHeld(s, u, r, d, page, n);
    UnmapUserEffect(r, d, page, n);
    var t := MfreeUser(r, d, page, n);
    UserUsesSplit(d, page, n);
    NewUsesRemoved(u, r, PageUses(d, page, n));
    UserUndone(s, u, r, t, d, page, n);
  }

  lemma UserUsesSplit(d: nat, page: nat, n: nat)
    ensures forall use :: use in UserUses(d, page, n) ==> use in PageUses(d, page, n) || use.Table?
  {}

  lemma UserUndone(s: Space, u: Space, r: Space, t: Space, d: nat, page: nat, n: nat)
    requires Inv(s) && Inv(r) && Inv(t) && Extends(u, r) && u.owner == s.owner && u.kVaddr == r.kVaddr && u.uVaddr == r.uVaddr
    requires d in s.uVaddr && USER_BASE <= page && ClearRun(s.uVaddr[d], page - USER_BASE, n) && u == ReserveUser(s, d, page - USER_BASE, n)
    requires t.owner == Minus(r.owner, PageUses(d, page, n))
    requires forall f :: f in u.owner ==> f in t.owner && t.owner[f] == u.owner[f]
    requires forall f :: f in t.owner && !t.owner[f].Table? ==> f in u.owner
    requires SameBitmaps(r, t.(uVaddr := r.uVaddr))
    requires t.uVaddr == r.uVaddr[d := SetRange(r.uVaddr[d], page - USER_BASE, n, false)]
    ensures (forall f :: f in s.owner ==> f in t.owner && t.owner[f] == s.owner[f])
    ensures (forall f :: f in t.owner && f !in s.owner ==> t.owner[f].Table?)
    ensures t.uPool == s.uPool && t.kVaddr == s.kVaddr && t.uVaddr == s.uVaddr
  {
    forall f | UserFrame(s, f)
      ensures f in s.owner <==> f in t.owner
    {
      assert FrameOk(t, f);
    }
    PoolsFromOwner(s, t);
    assert t.uVaddr[d] == s.uVaddr[d];
    assert t.uVaddr == s.uVaddr;
  }

  // ---------- The accounts balance ----------

  predicate SetIn(bits: seq<bool>, start: nat, f: nat) {
    start <= f < start + |bits| && bits[f - start]
  }

  /** Frames with a set bit in a pool that starts at frame `start`. */
  function SetFrames(bits: seq<bool>, start: nat): set<nat> {
    set f: nat | f < start + |bits| && SetIn(bits, start, f)
  }

  lemma {:induction false} SetFramesCount(bits: seq<bool>, start: nat)
    ensures |SetFrames(bits, start)| == |bits| - FreeCount(bits)
  {
    if bits == [] {
      assert SetFrames(bits, start) == {};
    } else {
      var rest := SetFrames(bits[1..], start + 1);
      SetFramesCount(bits[1..], start + 1);
      assert forall f: nat :: SetIn(bits, start, f) <==> SetIn(bits[1..], start + 1, f) || (f == start && bits[0]);
      assert SetFrames(bits, start) == rest + if bits[0] then {start} else {};
    }
  }

  /** The pages of the kernel heap, the page tables and the pages of processes, as the processor
      finds them in the directories. */
  ghost function KernelMappings(s: Space): set<Use>
    requires Inv(s)
  {
    set p: nat | p < 1023 * ENTRIES && KERNEL_HEAP <= p && Walk(s.mem, KERNEL_DIR, p).Some? :: KernelPage(p)
  }

  ghost function TableMappings(s: Space): set<Use>
    requires Inv(s)
  {
    set d, i: nat | d in s.uVaddr && i < KERNEL_PDE && d < |s.mem| && Present(s.mem[d][i]) :: Table(d, i)
  }

  ghost function UserMappings(s: Space): set<Use>
    requires Inv(s)
  {
    set d, p: nat | d in s.uVaddr && p < KERNEL_PDE * ENTRIES && d < |s.mem| && Walk(s.mem, d, p).Some? :: UserPage(d, p)
  }

  /** A set of frames and the set of their uses have the same size. */
  lemma {:induction false} OneUseEach(owner: map<nat, Use>, frames: set<nat>, uses: set<Use>)
    requires forall f :: f in frames ==> f in owner && owner[f] in uses
    requires forall use :: use in uses ==> exists f :: f in frames && owner[f] == use
    requires forall f, g :: f in frames && g in frames && owner[f] == owner[g] ==> f == g
    ensures |frames| == |uses|
    decreases frames
  {
    if frames == {} {
      assert uses == {};
    } else {
      var f :| f in frames;
      OneUseEach(owner, frames - {f}, uses - {owner[f]});
    }
  }

  lemma UserPoolBalances(s: Space)
    requires Inv(s)
    ensures |s.uPool| - FreeCount(s.uPool) == |UserMappings(s)|
  {
    var frames := SetFrames(s.uPool, s.uStart);
    SetFramesCount(s.uPool, s.uStart);
    forall f | f in frames
      ensures f in s.owner && s.owner[f] in UserMappings(s)
    {
      assert FrameOk(s, f) && SetIn(s.uPool, s.uStart, f);
      UserWalk(s, s.owner[f].dir, s.owner[f].page, f);
    }
    forall use | use in UserMappings(s)
      ensures exists f :: f in frames && s.owner[f] == use
    {
      var f := Walk(s.mem, use.dir, use.page).value;
      UserWalk(s, use.dir, use.page, f);
      assert FrameOk(s, f) && SetIn(s.uPool, s.uStart, f);
    }
    forall f, g | f in frames && g in frames && s.owner[f] == s.owner[g]
      ensures f == g
    {
      OneFramePerUse(s, f, g);
    }
    OneUseEach(s.owner, frames, UserMappings(s));
  }

  lemma KernelFrameUse(s: Space, f: nat)
    requires Inv(s) && SetIn(s.kPool, s.kStart, f)
    ensures f in s.owner && s.owner[f] in KernelMappings(s) + TableMappings(s)
  {
    assert FrameOk(s, f);
    if s.owner[f].KernelPage? {
      KernelWalk(s, KERNEL_DIR, s.owner[f].page, f);
    }
  }

  lemma KernelUseFrame(s: Space, use: Use) returns (f: nat)
    requires Inv(s) && use in KernelMappings(s) + TableMappings(s)
    ensures f in s.owner && s.owner[f] == use && SetIn(s.kPool, s.kStart, f)
  {
    if use.KernelPage? {
      f := Walk(s.mem, KERNEL_DIR, use.page).value;
      KernelWalk(s, KERNEL_DIR, use.page, f);
    } else {
      f := FrameOf(s.mem[use.dir][use.index]);
      assert PdeOk(s, use.dir, use.index);
    }
    assert FrameOk(s, f);
  }

  lemma KernelPoolBalances(s: Space)
    requires Inv(s)
    ensures |s.kPool| - FreeCount(s.kPool) == |KernelMappings(s)| + |TableMappings(s)|
  {
    var frames, uses := SetFrames(s.kPool, s.kStart), KernelMappings(s) + TableMappings(s);
    SetFramesCount(s.kPool, s.kStart);
    forall f | f in frames
      ensures f in s.owner && s.owner[f] in uses
    {
      KernelFrameUse(s, f);
    }
    forall use | use in uses
      ensures exists f :: f in frames && s.owner[f] == use
    {
      var f := KernelUseFrame(s, use);
    }
    forall f, g | f in frames && g in frames && s.owner[f] == s.owner[g]
      ensures f == g
    {
      OneFramePerUse(s, f, g);
    }
    OneUseEach(s.owner, frames, uses);
    assert KernelMappings(s) !! TableMappings(s);
  }

  /** Two mapped pages never share a frame; the frame's bit is set in the right pool and the page's
      bit in the right bitmap. */
  lemma UserMappingsAreApart(s: Space, d: nat, p: nat, d': nat, p': nat, f: nat)
    requires Inv(s) && d in s.uVaddr && d' in s.uVaddr && p < KERNEL_PDE * ENTRIES && p' < KERNEL_PDE * ENTRIES
    requires d < |s.mem| && d' < |s.mem| && Walk(s.mem, d, p) == Some(f) && Walk(s.mem, d', p') == Some(f)
    ensures d == d' && p == p'
    ensures SetIn(s.uPool, s.uStart, f) && USER_BASE <= p < USER_BASE + |s.uVaddr[d]| && s.uVaddr[d][p - USER_BASE]
  {
    UserWalk(s, d, p, f);
    UserWalk(s, d', p', f);
    assert FrameOk(s, f);
  }

  lemma KernelMappingsAreApart(s: Space, dir: nat, p: nat, dir': nat, p': nat, f: nat)
    requires Inv(s) && HeapPage(p) && HeapPage(p') && (dir == KERNEL_DIR || dir in s.uVaddr) && (dir' == KERNEL_DIR || dir' in s.uVaddr)
    requires dir < |s.mem| && dir' < |s.mem| && Walk(s.mem, dir, p) == Some(f) && Walk(s.mem, dir', p') == Some(f)
    ensures p == p'
    ensures SetIn(s.kPool, s.kStart, f) && p < KERNEL_HEAP + |s.kVaddr| && s.kVaddr[p - KERNEL_HEAP]
  {
    KernelWalk(s, dir, p, f);
    KernelWalk(s, dir', p', f);
    assert FrameOk(s, f);
  }

  // ---------- Any run of requests ----------

  datatype Request =
    | KernelPages(n: nat, beyond: bool)                // malloc_page(PF_KERNEL, n); `beyond` follows the bitmap
    | UserPages(d: nat, n: nat)                        // malloc_page(PF_USER, n) in process d
    | OnePage(d: nat, page: nat)                       // get_a_page(PF_USER, ...) in process d
    | FreeKernel(page: nat, n: nat)                    // mfree_page
    | FreeUser(d: nat, page: nat, n: nat)
    | NewProcess(cr3: nat, page: nat, bits: seq<bool>) // create_page_dir in a fresh, zeroed kernel page
    | Store(d: nat, page: nat, data: seq<nat>)         // process d writes to one of its pages

  /** get_a_page(PF_USER, ...): the page is in range and not mapped. */
  ghost predicate MayAsk(s: Space, d: nat, page: nat) {
    d in s.uVaddr && USER_BASE < page < USER_BASE + USER_PAGES && UserPage(d, page) !in s.owner.Values
  }

  /** What the caller of each request has to see to. */
  ghost predicate Legal(s: Space, q: Request)
    requires Inv(s)
  {
    match q
    case KernelPages(n, beyond) => 0 < n < 3840 && StaysInside(s.kVaddr, beyond, n)
    case UserPages(d, n) => 0 < n < 3840 && d in s.uVaddr && s.uVaddr[d][USER_PAGES - 1] && TablesSuffice(s, d, n)
    case OnePage(d, page) =>
      && MayAsk(s, d, page)
      && Missing(Tables(s, d), page, Min(1, FreeCount(s.uPool))) <= FreeCount(s.kPool)
    case FreeKernel(page, n) => n >= 1 && AllKernelHeld(s, page, n)
    case FreeUser(d, page, n) => n >= 1 && AllUserHeld(s, d, page, n)
    case NewProcess(cr3, page, bits) => KernelHeld(s, page) && (cr3 == KERNEL_DIR || cr3 in s.uVaddr) && |bits| == USER_PAGES
    case Store(d, page, data) => UserHeld(s, d, page) && |data| == ENTRIES
  }

  /** A kernel frame is free whenever the request needs a new page table. */
  ghost predicate TablesSuffice(s: Space, d: nat, n: nat)
    requires d in s.uVaddr
  {
    Fit(s.uVaddr[d], n).Some? ==>
      Missing(Tables(s, d), USER_BASE + Fit(s.uVaddr[d], n).value, Min(n, FreeCount(s.uPool))) <= FreeCount(s.kPool)
  }

  /** What Legal excludes for the kernel: when the scan leaves the bitmap, its answer ends with the page
      behind the heap, and no state in which that page is mapped satisfies the invariant. */
  lemma PastTheEndBreaksInv(s: Space, n: nat, beyond: bool, r: Option<nat>, t: Space, dir: nat, f: nat)
    requires Inv(s) && n > 0 && !StaysInside(s.kVaddr, beyond, n) && FirstFit(if n == 1 then s.kVaddr else s.kVaddr + [beyond], n, r)
    requires |t.kVaddr| == |s.kVaddr|
    requires Frames(t.mem) && (dir == KERNEL_DIR || dir in t.uVaddr) && dir < |t.mem| && HeapPage(KERNEL_HEAP + |s.kVaddr|)
    requires Walk(t.mem, dir, KERNEL_HEAP + |s.kVaddr|) == Some(f)
    ensures r.Some? && KERNEL_HEAP + r.value + n == KERNEL_HEAP + |s.kVaddr| + 1 && !Inv(t)
  {
    GuardedScan(s.kVaddr, beyond, n, r);
    ScanPastEndIff(s.kVaddr, beyond, n, r);
    if Inv(t) {
      KernelMappingsAreApart(t, dir, KERNEL_HEAP + |s.kVaddr|, dir, KERNEL_HEAP + |s.kVaddr|, f);
    }
  }

  /** The page's bit is set before its frame is taken, whether it was clear or not. */
  lemma OnePageReserved(s: Space, d: nat, page: nat)
    requires Inv(s) && d in s.uVaddr && USER_BASE <= page < USER_BASE + USER_PAGES && UserPage(d, page) !in s.owner.Values
    ensures Inv(ReserveUser(s, d, page - USER_BASE, 1)) && UserReserved(ReserveUser(s, d, page - USER_BASE, 1), d, page, 1)
  {
    var r := ReserveUser(s, d, page - USER_BASE, 1);
    forall f | f in s.owner && s.owner[f].UserPage? && s.owner[f].dir == d
      ensures USER_BASE <= s.owner[f].page < USER_BASE + USER_PAGES && s.uVaddr[d][s.owner[f].page - USER_BASE]
    {
      assert FrameOk(s, f);
    }
    UserBitsKeepInv(s, d, r.uVaddr[d]);
    assert UserHole(r, d, page);
  }

  /** get_a_page(PF_USER, page). When palloc fails, the bit stays set. */
  ghost function GetPage(s: Space, d: nat, page: nat): (r: Space)
    requires Inv(s) && Legal(s, OnePage(d, page))
    ensures Inv(r)
  {
    OnePageReserved(s, d, page);
    var u := ReserveUser(s, d, page - USER_BASE, 1);
    MapUserEffect(u, d, page, 1, Min(1, FreeCount(u.uPool)));
    MapUserPages(u, d, page, 1).s
  }

  lemma NewProcessFrame(s: Space, cr3: nat, page: nat, bits: seq<bool>)
    requires Inv(s) && Legal(s, NewProcess(cr3, page, bits))
    ensures var g := Walk(s.mem, KERNEL_DIR, page).value;
            g < |s.mem| && cr3 < |s.mem| && Frames(s.mem) && Inv(NewDirectory(s, cr3, g, bits))
  {
    var g := Walk(s.mem, KERNEL_DIR, page).value;
    KernelWalk(s, KERNEL_DIR, page, g);
    NewDirectoryKeepsInv(s, cr3, g, bits);
  }

  lemma StoreFrame(s: Space, d: nat, page: nat, data: seq<nat>)
    requires Inv(s) && Legal(s, Store(d, page, data))
    ensures var g := Walk(s.mem, d, page).value;
            g < |s.mem| && Inv(s.(mem := s.mem[g := data]))
  {
    var g := Walk(s.mem, d, page).value;
    UserWalk(s, d, page, g);
    assert DirOk(s, g);
    DataKeepsInv(s, g, data);
  }

  ghost function Serve(s: Space, q: Request): (r: Space)
    requires Inv(s) && Legal(s, q)
    ensures Inv(r)
  {
    match q
    case KernelPages(n, _) => MallocKernel(s, n).s
    case UserPages(d, n) => LostIff(s, d, n); MallocUser(s, d, n).s
    case OnePage(d, page) => GetPage(s, d, page)
    case FreeKernel(page, n) => MfreeKernel(s, page, n)
    case FreeUser(d, page, n) => MfreeUser(s, d, page, n)
    case NewProcess(cr3, page, bits) =>
      NewProcessFrame(s, cr3, page, bits);
      NewDirectory(s, cr3, Walk(s.mem, KERNEL_DIR, page).value, bits)
    case Store(d, page, data) =>
      StoreFrame(s, d, page, data);
      s.(mem := s.mem[Walk(s.mem, d, page).value := data])
  }

  /** r is reached from s by requests that are legal when they are made. */
  ghost predicate Reaches(s: Space, qs: seq<Request>, r: Space)
    requires Inv(s)
    decreases |qs|
  {
    if qs == [] then r == s else Legal(s, qs[0]) && Reaches(Serve(s, qs[0]), qs[1..], r)
  }

  /** After any run of requests, failing ones included, the page tables, the pools and the bitmaps of
      virtual addresses agree, and no frame is lost or used twice. */
  lemma {:induction false} RunsAreSafe(s: Space, qs: seq<Request>, r: Space)
    requires Inv(s) && Reaches(s, qs, r)
    ensures Inv(r)
    ensures |r.kPool| - FreeCount(r.kPool) == |KernelMappings(r)| + |TableMappings(r)|
    ensures |r.uPool| - FreeCount(r.uPool) == |UserMappings(r)|
    decreases |qs|
  {
    if qs == [] {
      KernelPoolBalances(r);
      UserPoolBalances(r);
    } else {
      RunsAreSafe(Serve(s, qs[0]), qs[1..], r);
    }
  }
}
