/**
  What malloc_page, get_a_page and mfree_page do (kernel/memory.c:65-93 and 163-437), in terms of what the
  processor finds when it translates an address: which pages lead to which frames before and after.
 */
module PageEffects {
  import opened Outcomes
  import opened Bitmap
  import opened Paging
  import opened PageAllocator
  import opened PageRequests

  /** The frame was in the kernel's pool, and free. */
  predicate FreeKernelFrame(s: Space, f: nat) {
    s.kStart <= f < s.kStart + |s.kPool| && !s.kPool[f - s.kStart]
  }

  predicate FreeUserFrame(s: Space, f: nat) {
    s.uStart <= f < s.uStart + |s.uPool| && !s.uPool[f - s.uStart]
  }

  // ---------- From uses to translations ----------

  lemma KernelWalks(s: Space, dir: nat, p: nat)
    requires Inv(s) && (dir == KERNEL_DIR || dir in s.uVaddr) && HeapPage(p)
    ensures dir < |s.mem| && Frames(s.mem)
    ensures forall f :: f in s.owner && s.owner[f] == KernelPage(p) ==> Walk(s.mem, dir, p) == Some(f)
    ensures Walk(s.mem, dir, p).Some? ==> Walk(s.mem, dir, p).value in s.owner && s.owner[Walk(s.mem, dir, p).value] == KernelPage(p)
  {
    KernelWalk(s, dir, p, 0);
    hide Inv, Walk;
    forall f | f in s.owner && s.owner[f] == KernelPage(p)
      ensures Walk(s.mem, dir, p) == Some(f)
    {
      KernelWalk(s, dir, p, f);
    }
    if Walk(s.mem, dir, p).Some? {
      KernelWalk(s, dir, p, Walk(s.mem, dir, p).value);
    }
  }

  lemma UserWalks(s: Space, d: nat, p: nat)
    requires Inv(s) && d in s.uVaddr && p < KERNEL_PDE * ENTRIES
    ensures d < |s.mem| && Frames(s.mem)
    ensures forall f :: f in s.owner && s.owner[f] == UserPage(d, p) ==> Walk(s.mem, d, p) == Some(f)
    ensures Walk(s.mem, d, p).Some? ==> Walk(s.mem, d, p).value in s.owner && s.owner[Walk(s.mem, d, p).value] == UserPage(d, p)
  {
    UserWalk(s, d, p, 0);
    hide Inv, Walk;
    forall f | f in s.owner && s.owner[f] == UserPage(d, p)
      ensures Walk(s.mem, d, p) == Some(f)
    {
      UserWalk(s, d, p, f);
    }
    if Walk(s.mem, d, p).Some? {
      UserWalk(s, d, p, Walk(s.mem, d, p).value);
    }
  }

  /** A use that is neither new nor gone is found at the same frame. */
  lemma SameUse(u: Space, r: Space, use: Use, f: nat)
    requires Inv(u) && Inv(r) && Extends(u, r)
    requires use in r.owner.Values ==> use in u.owner.Values
    ensures f in u.owner && u.owner[f] == use <==> f in r.owner && r.owner[f] == use
  {
    if f in u.owner {
      assert Kept(u, r, f);
    }
    if f in r.owner && r.owner[f] == use {
      OldUseOldFrame(u, r, f);
      assert Kept(u, r, f);
    }
  }

  /** A new use stands for a frame that was free. */
  lemma NewUse(u: Space, r: Space, use: Use)
    requires Inv(u) && Inv(r) && Extends(u, r) && use in r.owner.Values && use !in u.owner.Values
    ensures exists f :: f in r.owner && r.owner[f] == use && if use.UserPage? then FreeUserFrame(u, f) else FreeKernelFrame(u, f)
  {
    var f :| f in r.owner && r.owner[f] == use;
    if f in u.owner {
      KeptUse(u, r, f);
    }
    assert FrameOk(u, f) && FrameOk(r, f);
    assert if use.UserPage? then FreeUserFrame(u, f) else FreeKernelFrame(u, f);
  }

  lemma NoUse(s: Space, use: Use)
    requires use !in s.owner.Values
    ensures forall f :: f in s.owner ==> s.owner[f] != use
  {
    forall f | f in s.owner
      ensures s.owner[f] != use
    {
      assert s.owner[f] in s.owner.Values;
    }
  }

  // ---------- malloc_page ----------

  /** malloc_page(PF_KERNEL) maps n pages that were not mapped to frames that were free, and no other page
      of the kernel heap is mapped differently, whatever directory is in use. */
  lemma MallocKernelMaps(s: Space, n: nat, dir: nat, p: nat)
    requires Inv(s) && MallocKernel(s, n).Got? && (dir == KERNEL_DIR || dir in s.uVaddr) && HeapPage(p)
    ensures var r, page := MallocKernel(s, n).s, MallocKernel(s, n).page;
            && dir < |s.mem| && dir < |r.mem| && Frames(s.mem) && Frames(r.mem)
            && (page <= p < page + n ==>
                  && Walk(s.mem, dir, p) == None && Walk(r.mem, dir, p).Some?
                  && s.kStart <= Walk(r.mem, dir, p).value < s.kStart + |s.kPool| && !s.kPool[Walk(r.mem, dir, p).value - s.kStart])
            && (!(page <= p < page + n) ==> Walk(r.mem, dir, p) == Walk(s.mem, dir, p))
  {
    hide MallocKernel, Inv, Walk, Extends, Frames;
    var u := MallocKernelSteps(s, n);
    var r, page := MallocKernel(s, n).s, MallocKernel(s, n).page;
    KernelWalks(s, dir, p);
    KernelWalks(r, dir, p);
    if page <= p < page + n {
      assert KernelPage(p) in KernelUses(page, n);
      NewUse(u, r, KernelPage(p));
      NoUse(s, KernelPage(p));
    } else {
      assert KernelPage(p) !in KernelUses(page, n);
      if Walk(s.mem, dir, p).Some? {
        SameUse(u, r, KernelPage(p), Walk(s.mem, dir, p).value);
      }
      if Walk(r.mem, dir, p).Some? {
        SameUse(u, r, KernelPage(p), Walk(r.mem, dir, p).value);
      }
    }
  }

  /** The pages are the first n in a row whose bits are clear, and these bits are set. */
  lemma MallocKernelBits(s: Space, n: nat)
    requires Inv(s) && MallocKernel(s, n).Got?
    ensures var r, b := MallocKernel(s, n).s, MallocKernel(s, n).page - KERNEL_HEAP;
            && b >= 0 && ClearRun(s.kVaddr, b, n) && (forall c: nat :: c < b ==> !ClearRun(s.kVaddr, c, n))
            && |r.kVaddr| == |s.kVaddr| && r.uVaddr == s.uVaddr
            && forall i :: 0 <= i < |s.kVaddr| ==> (r.kVaddr[i] <==> s.kVaddr[i] || b <= i < b + n)
  {
    hide Inv;
    var u := MallocKernelSteps(s, n);
  }

  /** malloc_page(PF_USER) in process d: the same, and no page of another process is mapped differently. */
  lemma MallocUserMaps(s: Space, d: nat, n: nat, e: nat, p: nat)
    requires Inv(s) && d in s.uVaddr && MallocUser(s, d, n).Got? && e in s.uVaddr && p < KERNEL_PDE * ENTRIES
    ensures var r, page := MallocUser(s, d, n).s, MallocUser(s, d, n).page;
            && e < |s.mem| && e < |r.mem| && Frames(s.mem) && Frames(r.mem)
            && (e == d && page <= p < page + n ==>
                  && Walk(s.mem, e, p) == None && Walk(r.mem, e, p).Some?
                  && s.uStart <= Walk(r.mem, e, p).value < s.uStart + |s.uPool| && !s.uPool[Walk(r.mem, e, p).value - s.uStart])
            && (!(e == d && page <= p < page + n) ==> Walk(r.mem, e, p) == Walk(s.mem, e, p))
  {
    hide MallocUser, Inv, Walk, Extends, Frames;
    var u := MallocUserSteps(s, d, n);
    var r, page := MallocUser(s, d, n).s, MallocUser(s, d, n).page;
    UserWalks(s, e, p);
    UserWalks(r, e, p);
    UserMapsBy(s, u, r, d, page, n, e, p);
  }

  lemma UserMapsBy(s: Space, u: Space, r: Space, d: nat, page: nat, n: nat, e: nat, p: nat)
    requires Inv(u) && Inv(r) && Extends(u, r) && u.owner == s.owner && u.uPool == s.uPool && u.uStart == s.uStart
    requires u.owner.Values !! PageUses(d, page, n) && r.owner.Values == u.owner.Values + UserUses(d, page, n)
    ensures e == d && page <= p < page + n ==>
              && UserPage(e, p) !in s.owner.Values
              && exists f :: f in r.owner && r.owner[f] == UserPage(e, p) && FreeUserFrame(s, f)
    ensures !(e == d && page <= p < page + n) ==>
              forall f :: f in s.owner && s.owner[f] == UserPage(e, p) <==> f in r.owner && r.owner[f] == UserPage(e, p)
  {
    hide Inv, Extends;
    assert UserPage(e, p) in UserUses(d, page, n) <==> e == d && page <= p < page + n by { UserUsesAre(d, page, n, e, p); }
    if e == d && page <= p < page + n {
      assert UserPage(e, p) in PageUses(d, page, n);
      NewUse(u, r, UserPage(e, p));
      var f :| f in r.owner && r.owner[f] == UserPage(e, p) && FreeUserFrame(u, f);
      assert FreeUserFrame(s, f);
    } else {
      forall f
        ensures f in s.owner && s.owner[f] == UserPage(e, p) <==> f in r.owner && r.owner[f] == UserPage(e, p)
      {
        SameUse(u, r, UserPage(e, p), f);
      }
    }
  }

  lemma UserUsesAre(d: nat, page: nat, n: nat, e: nat, p: nat)
    ensures UserPage(e, p) in UserUses(d, page, n) <==> e == d && page <= p < page + n
  {
    assert UserPage(e, p) in PageUses(d, page, n) <==> e == d && page <= p < page + n;
  }

  lemma MallocUserBits(s: Space, d: nat, n: nat)
    requires Inv(s) && d in s.uVaddr && MallocUser(s, d, n).Got?
    ensures var r, b := MallocUser(s, d, n).s, MallocUser(s, d, n).page - USER_BASE;
            && b >= 0 && ClearRun(s.uVaddr[d], b, n) && (forall c: nat :: c < b ==> !ClearRun(s.uVaddr[d], c, n))
            && r.kVaddr == s.kVaddr && r.uVaddr.Keys == s.uVaddr.Keys && |r.uVaddr[d]| == |s.uVaddr[d]|
            && (forall e :: e in s.uVaddr && e != d ==> r.uVaddr[e] == s.uVaddr[e])
            && forall i :: 0 <= i < |s.uVaddr[d]| ==> (r.uVaddr[d][i] <==> s.uVaddr[d][i] || b <= i < b + n)
  {
    hide Inv;
    var u := MallocUserSteps(s, d, n);
  }

  // ---------- get_a_page ----------

  /** get_a_page sets the page's bit and, exactly when there is a frame, maps it to one that was free. No
      other page of any process is mapped differently. */
  lemma GetPageMaps(s: Space, d: nat, page: nat, e: nat, p: nat)
    requires Inv(s) && Legal(s, OnePage(d, page)) && e in s.uVaddr && p < KERNEL_PDE * ENTRIES
    ensures var r := GetPage(s, d, page);
            && e < |s.mem| && e < |r.mem| && Frames(s.mem) && Frames(r.mem) && d in s.uVaddr && e in r.uVaddr
            && (e == d && p == page ==>
                  && Walk(s.mem, e, p) == None && (Walk(r.mem, e, p).Some? <==> FreeCount(s.uPool) > 0)
                  && (Walk(r.mem, e, p).Some? ==> s.uStart <= Walk(r.mem, e, p).value < s.uStart + |s.uPool| && !s.uPool[Walk(r.mem, e, p).value - s.uStart]))
            && (!(e == d && p == page) ==> Walk(r.mem, e, p) == Walk(s.mem, e, p))
  {
    hide Inv, Walk, Extends, Frames;
    var k := Min(1, FreeCount(s.uPool));
    var u := GetPageSteps(s, d, page);
    var r := GetPage(s, d, page);
    UserWalks(s, e, p);
    UserWalks(r, e, p);
    UserMapsBy(s, u, r, d, page, k, e, p);
    if e == d && p == page {
      NoUse(s, UserPage(e, p));
    }
  }

  lemma GetPageSteps(s: Space, d: nat, page: nat) returns (u: Space)
    requires Inv(s) && Legal(s, OnePage(d, page))
    ensures var k := Min(1, FreeCount(s.uPool));
            var r := GetPage(s, d, page);
            && d in s.uVaddr && u.uPool == s.uPool && u.uStart == s.uStart && u.uVaddr.Keys == s.uVaddr.Keys
            && UserPage(d, page) !in s.owner.Values
            && Inv(u) && Extends(u, r) && u.owner == s.owner && u.owner.Values !! PageUses(d, page, k)
            && r.owner.Values == u.owner.Values + UserUses(d, page, k) && r.uVaddr == u.uVaddr
  {
    OnePageReserved(s, d, page);
    u := ReserveUser(s, d, page - USER_BASE, 1);
    MapUserEffect(u, d, page, 1, Min(1, FreeCount(u.uPool)));
    hide Inv, Extends, MapUserPages, FreeCount;
  }

  // ---------- mfree_page ----------

  /** mfree_page(PF_KERNEL) unmaps the n pages; no other page of the kernel heap is mapped differently. The
      bits of the pages and of their frames are clear afterwards, and all others stay. */
  lemma MfreeKernelUnmaps(s: Space, page: nat, n: nat, dir: nat, p: nat)
    requires Inv(s) && AllKernelHeld(s, page, n) && n > 0 && (dir == KERNEL_DIR || dir in s.uVaddr) && HeapPage(p)
    ensures var r := MfreeKernel(s, page, n);
            && dir < |s.mem| && dir < |r.mem| && Frames(s.mem) && Frames(r.mem)
            && (page <= p < page + n ==> Walk(s.mem, dir, p).Some? && Walk(r.mem, dir, p) == None)
            && (!(page <= p < page + n) ==> Walk(r.mem, dir, p) == Walk(s.mem, dir, p))
  {
    hide Inv, Walk, Frames, UnmapKernelPages;
    KernelHeldInRange(s, page, n);
    UnmapKernelEffect(s, page, n);
    var r := MfreeKernel(s, page, n);
    KernelWalks(s, dir, p);
    KernelWalks(r, dir, p);
    assert KernelPage(p) in KernelUses(page, n) <==> page <= p < page + n;
    if page <= p < page + n {
      HeldIsOwned(s, page, n, p);
    }
  }

  lemma HeldIsOwned(s: Space, page: nat, n: nat, p: nat)
    requires Inv(s) && AllKernelHeld(s, page, n) && page <= p < page + n
    ensures HeapPage(p) && exists f :: f in s.owner && s.owner[f] == KernelPage(p)
  {
    assert KernelHeld(s, p);
    KernelWalks(s, KERNEL_DIR, p);
  }

  lemma MfreeKernelBits(s: Space, page: nat, n: nat, f: nat)
    requires Inv(s) && AllKernelHeld(s, page, n) && n > 0 && s.kStart <= f < s.kStart + |s.kPool|
    ensures var r := MfreeKernel(s, page, n);
            && |r.kPool| == |s.kPool| && |r.kVaddr| == |s.kVaddr| && r.uVaddr == s.uVaddr && KERNEL_DIR < |s.mem| && Frames(s.mem)
            && (forall i :: 0 <= i < |s.kVaddr| ==> (r.kVaddr[i] <==> s.kVaddr[i] && !(page <= KERNEL_HEAP + i < page + n)))
            && (r.kPool[f - s.kStart] <==> s.kPool[f - s.kStart] && !exists p: nat :: page <= p < page + n && HeapPage(p) && Walk(s.mem, KERNEL_DIR, p) == Some(f))
  {
    KernelHeldInRange(s, page, n);
    UnmapKernelEffect(s, page, n);
    var r := MfreeKernel(s, page, n);
    assert FrameOk(s, f) && FrameOk(r, f) && KernelFrame(s, f) && KernelFrame(r, f) && !UserFrame(s, f) && !UserFrame(r, f);
    hide Inv, Walk, UnmapKernelPages;
    if exists p: nat :: page <= p < page + n && HeapPage(p) && Walk(s.mem, KERNEL_DIR, p) == Some(f) {
      var p: nat :| page <= p < page + n && HeapPage(p) && Walk(s.mem, KERNEL_DIR, p) == Some(f);
      KernelWalks(s, KERNEL_DIR, p);
      assert KernelPage(p) in KernelUses(page, n);
    } else if f in s.owner && s.owner[f] in KernelUses(page, n) {
      KernelWalks(s, KERNEL_DIR, s.owner[f].page);
    }
  }

  /** mfree_page(PF_USER) in process d likewise; no page of another process is mapped differently. */
  lemma MfreeUserUnmaps(s: Space, d: nat, page: nat, n: nat, e: nat, p: nat)
    requires Inv(s) && AllUserHeld(s, d, page, n) && n > 0 && e in s.uVaddr && p < KERNEL_PDE * ENTRIES
    ensures var r := MfreeUser(s, d, page, n);
            && e < |s.mem| && e < |r.mem| && Frames(s.mem) && Frames(r.mem) && d in s.uVaddr && d in r.uVaddr && |r.uVaddr[d]| == |s.uVaddr[d]|
            && (e == d && page <= p < page + n ==> Walk(s.mem, e, p).Some? && Walk(r.mem, e, p) == None)
            && (!(e == d && page <= p < page + n) ==> Walk(r.mem, e, p) == Walk(s.mem, e, p))
            && (forall i :: 0 <= i < |s.uVaddr[d]| ==> (r.uVaddr[d][i] <==> s.uVaddr[d][i] && !(page <= USER_BASE + i < page + n)))
  {
    hide Inv, Walk, Frames, UnmapUserPages;
    UserHeldInRange(s, d, page, n);
    UnmapUserEffect(s, d, page, n);
    var r := MfreeUser(s, d, page, n);
    UserWalks(s, e, p);
    UserWalks(r, e, p);
    assert UserPage(e, p) in PageUses(d, page, n) <==> e == d && page <= p < page + n;
    if e == d && page <= p < page + n {
      assert UserHeld(s, d, p);
    }
  }

  // ---------- What is in the pages ----------

  /** A frame that is mapped somewhere and no directory or page table holds what it held. */
  ghost predicate SameData(s: Space, r: Space, f: nat) {
    f in s.owner && f in r.owner && !s.owner[f].Table? && f !in s.uVaddr ==> f < |s.mem| && f < |r.mem| && r.mem[f] == s.mem[f]
  }

  /** malloc_page changes no page that is in use. */
  lemma MallocKeepsData(s: Space, n: nat, d: nat, f: nat)
    requires Inv(s) && f in s.owner && !s.owner[f].Table? && f !in s.uVaddr
    ensures f < |s.mem|
    ensures MallocKernel(s, n).Got? ==> f < |MallocKernel(s, n).s.mem| && MallocKernel(s, n).s.mem[f] == s.mem[f]
    ensures d in s.uVaddr && MallocUser(s, d, n).Got? ==> f < |MallocUser(s, d, n).s.mem| && MallocUser(s, d, n).s.mem[f] == s.mem[f]
  {
    OwnedFrames(s, f);
    hide Inv, MallocKernel, MallocUser;
    if MallocKernel(s, n).Got? {
      var u := MallocKernelSteps(s, n);
      assert Kept(u, MallocKernel(s, n).s, f);
    }
    if d in s.uVaddr && MallocUser(s, d, n).Got? {
      var u := MallocUserSteps(s, d, n);
      assert Kept(u, MallocUser(s, d, n).s, f);
    }
  }

  lemma UnmapKernelData(s: Space, page: nat, n: nat, f: nat) returns (t: Space)
    requires Inv(s) && AllKernelHeld(s, page, n) && n > 0
    ensures Inv(t) && AllKernelHeld(t, page + 1, n - 1) && UnmapKernelPages(s, page, n) == UnmapKernelPages(t, page + 1, n - 1)
    ensures t.owner == Minus(s.owner, {KernelPage(page)}) && SameBitmaps(s, t) && SameData(s, t, f)
  {
    UnmapKernelStep(s, page, n);
    var g := Walk(s.mem, KERNEL_DIR, page).value;
    t := UnmapKernel(s, page, g);
    MinusOne(s, g);
    KernelStoreReads(s, t, page, Unmapped(Entry(g)), page);
  }

  lemma UnmapUserData(s: Space, d: nat, page: nat, n: nat, f: nat) returns (t: Space)
    requires Inv(s) && AllUserHeld(s, d, page, n) && n > 0
    ensures Inv(t) && AllUserHeld(t, d, page + 1, n - 1) && UnmapUserPages(s, d, page, n) == UnmapUserPages(t, d, page + 1, n - 1)
    ensures t.owner == Minus(s.owner, {UserPage(d, page)}) && SameBitmaps(s, t) && SameData(s, t, f)
  {
    UnmapUserStep(s, d, page, n);
    var g := Walk(s.mem, d, page).value;
    t := UnmapUser(s, d, page, g);
    MinusOne(s, g);
    UserPageMapped(s, d, page, g);
    if f in s.owner {
      OwnedFrames(s, f);
    }
  }

  lemma SameDataTransitive(s: Space, t: Space, r: Space, f: nat, a: set<Use>, b: set<Use>)
    requires SameData(s, t, f) && SameData(t, r, f) && t.uVaddr == s.uVaddr && t.owner == Minus(s.owner, a) && r.owner == Minus(t.owner, b)
    ensures SameData(s, r, f)
  {}

  lemma DataStays(s: Space, f: nat)
    requires Inv(s)
    ensures SameData(s, s, f)
  {
    if f in s.owner {
      OwnedFrames(s, f);
    }
  }

  lemma {:induction false} UnmapKernelKeepsData(s: Space, page: nat, n: nat, f: nat)
    requires Inv(s) && AllKernelHeld(s, page, n)
    ensures SameData(s, UnmapKernelPages(s, page, n), f)
    decreases n
  {
    hide *;
    if n > 0 {
      var t := UnmapKernelData(s, page, n, f);
      UnmapKernelEffect(t, page + 1, n - 1);
      UnmapKernelKeepsData(t, page + 1, n - 1, f);
      assert t.uVaddr == s.uVaddr by { SameProcesses(s, t); }
      SameDataTransitive(s, t, UnmapKernelPages(t, page + 1, n - 1), f, {KernelPage(page)}, KernelUses(page + 1, n - 1));
    } else {
      DataStays(s, f);
      NoneUnmapped(s, 0, page);
    }
  }

  lemma {:induction false} UnmapUserKeepsData(s: Space, d: nat, page: nat, n: nat, f: nat)
    requires Inv(s) && AllUserHeld(s, d, page, n)
    ensures SameData(s, UnmapUserPages(s, d, page, n), f)
    decreases n
  {
    hide *;
    if n > 0 {
      var t := UnmapUserData(s, d, page, n, f);
      UnmapUserEffect(t, d, page + 1, n - 1);
      UnmapUserKeepsData(t, d, page + 1, n - 1, f);
      assert t.uVaddr == s.uVaddr by { SameProcesses(s, t); }
      SameDataTransitive(s, t, UnmapUserPages(t, d, page + 1, n - 1), f, {UserPage(d, page)}, PageUses(d, page + 1, n - 1));
    } else {
      DataStays(s, f);
      NoneUnmapped(s, d, page);
    }
  }

  lemma SameProcesses(s: Space, t: Space)
    requires SameBitmaps(s, t)
    ensures t.uVaddr == s.uVaddr
  {}

  lemma NoneUnmapped(s: Space, d: nat, page: nat)
    requires Inv(s)
    ensures AllKernelHeld(s, page, 0) && UnmapKernelPages(s, page, 0) == s
    ensures AllUserHeld(s, d, page, 0) && UnmapUserPages(s, d, page, 0) == s
  {}

  /** Nor does mfree_page, but for the pages that it gives back. */
  lemma MfreeKeepsData(s: Space, d: nat, page: nat, n: nat, f: nat)
    requires Inv(s) && f in s.owner && !s.owner[f].Table? && f !in s.uVaddr && n > 0
    ensures f < |s.mem|
    ensures AllKernelHeld(s, page, n) ==>
              var r := MfreeKernel(s, page, n); f in r.owner ==> f < |r.mem| && r.mem[f] == s.mem[f]
    ensures AllUserHeld(s, d, page, n) ==>
              var r := MfreeUser(s, d, page, n); f in r.owner ==> f < |r.mem| && r.mem[f] == s.mem[f]
  {
    OwnedFrames(s, f);
    hide Inv, AllKernelHeld, AllUserHeld, UnmapKernelPages, UnmapUserPages;
    if AllKernelHeld(s, page, n) {
      UnmapKernelKeepsData(s, page, n, f);
    }
    if AllUserHeld(s, d, page, n) {
      UnmapUserKeepsData(s, d, page, n, f);
    }
  }

  // ---------- Requests ----------

  /** Each request of a run is the routine of its name. */
  lemma ServeIs(s: Space, q: Request)
    requires Inv(s) && Legal(s, q)
    ensures match q
            case KernelPages(n, _) => Serve(s, q) == MallocKernel(s, n).s
            case UserPages(d, n) => d in s.uVaddr && !MallocUser(s, d, n).Lost? && Serve(s, q) == MallocUser(s, d, n).s
            case OnePage(d, page) => Serve(s, q) == GetPage(s, d, page)
            case FreeKernel(page, n) => n > 0 && AllKernelHeld(s, page, n) && Serve(s, q) == MfreeKernel(s, page, n)
            case FreeUser(d, page, n) => n > 0 && AllUserHeld(s, d, page, n) && Serve(s, q) == MfreeUser(s, d, page, n)
            case NewProcess(_, _, _) => true
            case Store(_, _, _) => true
  {
    if q.UserPages? {
      LostIff(s, q.d, q.n);
    }
  }
}
