/**
  Copying a process's memory: copy_body_stack3 (userprog/fork.c:39-77), with the directory switches of
  page_dir_activate (userprog/process.c:33-48).
 */
module Fork {
  import opened Outcomes
  import opened Bitmap
  import opened Paging
  import opened PageAllocator
  import opened PageRequests
  import opened MemoryManager

  /** The frame that a mapped page is mapped to. */
  function Target(s: Space, dir: nat, page: nat): nat {
    if Frames(s.mem) && dir < |s.mem| && page < ENTRIES * ENTRIES && Walk(s.mem, dir, page).Some? then
      Walk(s.mem, dir, page).value
    else 0
  }

  // ---------- What the copy needs ----------

  function SetFrom(bits: seq<bool>, i: nat): nat
    requires i <= |bits|
    decreases |bits| - i
  {
    if i == |bits| then 0 else SetFrom(bits, i + 1) + if bits[i] then 1 else 0
  }

  /** The page tables that the pages with set bits from position i on need, given some. */
  function TablesFrom(bits: seq<bool>, tables: set<nat>, i: nat): nat
    requires i <= |bits|
    decreases |bits| - i
  {
    if i == |bits| then 0
    else if !bits[i] then TablesFrom(bits, tables, i + 1)
    else
      var t := TableIndex(USER_BASE + i);
      (if t in tables then 0 else 1) + TablesFrom(bits, tables + {t}, i + 1)
  }

  /** Process c is ready to become a copy of process p: it has the same bitmap and no pages; every
      set bit of p is mapped; the frames suffice; page `buf` of the kernel heap is mapped. */
  ghost predicate CanCopy(s: Space, p: nat, c: nat, buf: nat)
    requires Inv(s)
  {
    && p in s.uVaddr && c in s.uVaddr && p != c && s.uVaddr[c] == s.uVaddr[p] && KernelHeld(s, buf)
    && (forall page: nat {:trigger UserPage(c, page)} :: UserPage(c, page) !in s.owner.Values)
    && (forall page: nat {:trigger UserHeld(s, p, page)} :: USER_BASE <= page < USER_BASE + USER_PAGES && s.uVaddr[p][page - USER_BASE] ==> UserHeld(s, p, page))
    && SetFrom(s.uVaddr[p], 0) <= FreeCount(s.uPool)
    && TablesFrom(s.uVaddr[p], Tables(s, c), 0) <= FreeCount(s.kPool)
  }

  // ---------- The copy so far ----------

  /** Frame f is used as before, and holds what it held; b is the buffer. */
  ghost predicate KeptBut(s: Space, r: Space, b: nat, f: nat) {
    f in s.owner ==>
      && f in r.owner && r.owner[f] == s.owner[f]
      && (!s.owner[f].Table? && f !in s.uVaddr && f != b && f < |s.mem| && f < |r.mem| ==> r.mem[f] == s.mem[f])
  }

  /** Page `page` of c is mapped exactly when its bit is set, and then holds what it held in p. */
  ghost predicate PageCopied(s: Space, r: Space, p: nat, c: nat, page: nat)
    requires Inv(s) && Inv(r) && p in s.uVaddr && c in r.uVaddr
    requires USER_BASE <= page < USER_BASE + USER_PAGES && |s.uVaddr[p]| == USER_PAGES
  {
    if s.uVaddr[p][page - USER_BASE] then
      && UserHeld(s, p, page) && UserHeld(r, c, page)
      && var f, g := Target(s, p, page), Target(r, c, page);
      f < |s.mem| && g < |r.mem| && r.mem[g] == s.mem[f]
    else UserPage(c, page) !in r.owner.Values
  }

  /** The pages below position i are copied; no later page of c is mapped; p is untouched. */
  ghost predicate Copying(s: Space, r: Space, p: nat, c: nat, buf: nat, i: nat)
    requires Inv(s) && CanCopy(s, p, c, buf) && i <= USER_PAGES
  {
    var bits := s.uVaddr[p];
    var b := Target(s, KERNEL_DIR, buf);
    && Inv(r) && r.uVaddr == s.uVaddr && |r.mem| == |s.mem| && |bits| == USER_PAGES
    && (forall f {:trigger KeptBut(s, r, b, f)} :: KeptBut(s, r, b, f))
    && (forall page: nat {:trigger PageCopied(s, r, p, c, page)} :: USER_BASE <= page < USER_BASE + i ==> PageCopied(s, r, p, c, page))
    && (forall page: nat {:trigger UserPage(c, page)} :: UserPage(c, page) in r.owner.Values ==> USER_BASE <= page < USER_BASE + i)
    && SetFrom(bits, i) <= FreeCount(r.uPool)
    && TablesFrom(bits, Tables(r, c), i) <= FreeCount(r.kPool)
  }

  lemma CopyStarts(s: Space, p: nat, c: nat, buf: nat)
    requires Inv(s) && CanCopy(s, p, c, buf)
    ensures Copying(s, s, p, c, buf, 0)
  {}

  /** A clear bit is passed over. */
  lemma SkipClear(s: Space, r: Space, p: nat, c: nat, buf: nat, i: nat)
    requires Inv(s) && CanCopy(s, p, c, buf) && i < USER_PAGES && Copying(s, r, p, c, buf, i) && !s.uVaddr[p][i]
    ensures Copying(s, r, p, c, buf, i + 1)
  {
    forall page: nat | USER_BASE <= page < USER_BASE + i + 1
      ensures PageCopied(s, r, p, c, page)
    {
      if page < USER_BASE + i {
        assert PageCopied(s, r, p, c, page);
      } else {
        assert UserPage(c, page) !in r.owner.Values;
      }
    }
  }

  // ---------- One page ----------

  /** The page is read into the buffer. */
  function Buffered(r: Space, b: nat, f: nat): Space
    requires f < |r.mem| && b < |r.mem|
  {
    r.(mem := r.mem[b := r.mem[f]])
  }

  lemma ParentPage(s: Space, r: Space, p: nat, c: nat, buf: nat, i: nat)
    requires Inv(s) && CanCopy(s, p, c, buf) && i < USER_PAGES && Copying(s, r, p, c, buf, i) && s.uVaddr[p][i]
    ensures UserHeld(s, p, USER_BASE + i) && UserHeld(r, p, USER_BASE + i)
    ensures var f, b := Target(s, p, USER_BASE + i), Target(s, KERNEL_DIR, buf);
            && Walk(r.mem, p, USER_BASE + i) == Some(f) && f < |r.mem| && f != b && r.mem[f] == s.mem[f]
            && f in s.owner && s.owner[f] == UserPage(p, USER_BASE + i)
  {
    var page := USER_BASE + i;
    assert UserHeld(s, p, page);
    var f, b := Target(s, p, page), Target(s, KERNEL_DIR, buf);
    UserWalk(s, p, page, f);
    KernelWalk(s, KERNEL_DIR, buf, b);
    assert KeptBut(s, r, b, f);
    UserWalk(r, p, page, f);
    OwnedFrames(s, f);
    assert DirOk(s, f);
  }

  /** The buffer is the same frame under every directory, and no one else's. */
  lemma BufferFrame(s: Space, r: Space, p: nat, c: nat, buf: nat, i: nat, dir: nat)
    requires Inv(s) && CanCopy(s, p, c, buf) && i <= USER_PAGES && Copying(s, r, p, c, buf, i) && dir in s.uVaddr
    ensures HeapPage(buf) && dir < |r.mem| && Frames(r.mem)
    ensures var b := Target(s, KERNEL_DIR, buf);
            && Walk(r.mem, dir, buf) == Some(b) && b < |r.mem| && b in r.owner && r.owner[b] == KernelPage(buf) && b !in r.uVaddr
            && b in s.owner && s.owner[b] == KernelPage(buf)
  {
    var b := Target(s, KERNEL_DIR, buf);
    KernelWalk(s, KERNEL_DIR, buf, b);
    assert KeptBut(s, r, b, b);
    KernelWalk(r, dir, buf, b);
    OwnedFrames(r, b);
  }

  lemma BufferedKeepsInv(s: Space, r: Space, p: nat, c: nat, buf: nat, i: nat)
    requires Inv(s) && CanCopy(s, p, c, buf) && i < USER_PAGES && Copying(s, r, p, c, buf, i) && s.uVaddr[p][i]
    ensures var f, b := Target(s, p, USER_BASE + i), Target(s, KERNEL_DIR, buf);
            && f < |r.mem| && b < |r.mem| && Inv(Buffered(r, b, f)) && Copying(s, Buffered(r, b, f), p, c, buf, i)
            && UserReserved(Buffered(r, b, f), c, USER_BASE + i, 1)
  {
    var f, b := Target(s, p, USER_BASE + i), Target(s, KERNEL_DIR, buf);
    ParentPage(s, r, p, c, buf, i);
    BufferFrame(s, r, p, c, buf, i, p);
    DataKeepsInv(r, b, r.mem[f]);
    var t := Buffered(r, b, f);
    forall g ensures KeptBut(s, t, b, g) { assert KeptBut(s, r, b, g); }
    forall page: nat | USER_BASE <= page < USER_BASE + i
      ensures PageCopied(s, t, p, c, page)
    {
      BufferedKeepsPage(s, r, f, t, p, c, buf, i, page);
    }
    assert Tables(t, c) == Tables(r, c) by { DirFrame(r, c); assert r.owner[b] == KernelPage(buf); }
    assert UserHole(t, c, USER_BASE + i);
  }

  lemma BufferedKeepsPage(s: Space, r: Space, f: nat, t: Space, p: nat, c: nat, buf: nat, i: nat, page: nat)
    requires Inv(s) && CanCopy(s, p, c, buf) && i < USER_PAGES && Copying(s, r, p, c, buf, i) && Inv(t)
    requires var b := Target(s, KERNEL_DIR, buf); f < |r.mem| && b < |r.mem| && t == Buffered(r, b, f)
    requires USER_BASE <= page < USER_BASE + i
    ensures PageCopied(s, t, p, c, page)
  {
    assert PageCopied(s, r, p, c, page);
    if s.uVaddr[p][page - USER_BASE] {
      var g := Target(r, c, page);
      UserWalk(r, c, page, g);
      UserWalk(t, c, page, g);
      BufferFrame(s, r, p, c, buf, i, p);
    }
  }

  lemma CountsStep(s: Space, r: Space, p: nat, c: nat, buf: nat, i: nat)
    requires Inv(s) && CanCopy(s, p, c, buf) && i < USER_PAGES && Copying(s, r, p, c, buf, i) && s.uVaddr[p][i]
    ensures SetFrom(s.uVaddr[p], i + 1) + 1 <= FreeCount(r.uPool)
    ensures var idx := TableIndex(USER_BASE + i);
            TablesFrom(s.uVaddr[p], Tables(r, c) + {idx}, i + 1) + (if idx in Tables(r, c) then 0 else 1) <= FreeCount(r.kPool)
    ensures c in r.uVaddr && USER_BASE + i < KERNEL_PDE * ENTRIES && WithTable(r, c, USER_BASE + i).Some?
  {
    FreeCountZeroIff(r.kPool);
    DirFrame(r, c);
  }

  /** get_a_page_without_opvaddrbitmap(PF_USER, page) in the child: it finds its frames, and adds the
      page and perhaps its page table. */
  lemma ChildPage(s: Space, t: Space, p: nat, c: nat, buf: nat, i: nat) returns (u: Space)
    requires Inv(s) && CanCopy(s, p, c, buf) && i < USER_PAGES && Copying(s, t, p, c, buf, i) && s.uVaddr[p][i]
    requires Inv(t) && UserReserved(t, c, USER_BASE + i, 1)
    ensures MapUserPages(t, c, USER_BASE + i, 1) == Done(u) && Inv(u) && Extends(t, u) && u.uVaddr == t.uVaddr
    ensures u.owner.Values == t.owner.Values + {UserPage(c, USER_BASE + i), Table(c, TableIndex(USER_BASE + i))}
    ensures SetFrom(s.uVaddr[p], i + 1) <= FreeCount(u.uPool)
    ensures TablesFrom(s.uVaddr[p], Tables(u, c), i + 1) <= FreeCount(u.kPool)
  {
    CountsStep(s, t, p, c, buf, i);
    hide *;
    u := MapUserUnfold(t, c, USER_BASE + i, 1);
    MapUserStop(u, c, USER_BASE + i + 1, 0);
  }

  lemma NewPage(t: Space, u: Space, c: nat, page: nat) returns (g: nat)
    requires Inv(t) && Inv(u) && Extends(t, u) && c in u.uVaddr && u.uVaddr == t.uVaddr && page < KERNEL_PDE * ENTRIES
    requires UserPage(c, page) in u.owner.Values && UserPage(c, page) !in t.owner.Values
    ensures UserHeld(u, c, page) && g == Target(u, c, page) && g < |u.mem| && g !in t.owner && g !in u.uVaddr
    ensures g in u.owner && u.owner[g] == UserPage(c, page)
  {
    g :| g in u.owner && u.owner[g] == UserPage(c, page);
    UserWalk(u, c, page, g);
    OwnedFrames(u, g);
    assert DirOk(u, g);
    if g in t.owner {
      KeptUse(t, u, g);
    }
  }

  /** What the child's page is filled from is still in the buffer. */
  lemma BufferKept(s: Space, t: Space, u: Space, p: nat, c: nat, buf: nat, i: nat)
    requires Inv(s) && CanCopy(s, p, c, buf) && i <= USER_PAGES && Copying(s, t, p, c, buf, i) && Inv(u) && Extends(t, u) && u.uVaddr == t.uVaddr
    ensures var b := Target(s, KERNEL_DIR, buf);
            b < |u.mem| && u.mem[b] == t.mem[b] && HeapPage(buf) && c < |u.mem| && Frames(u.mem) && Walk(u.mem, c, buf) == Some(b)
  {
    var b := Target(s, KERNEL_DIR, buf);
    BufferFrame(s, t, p, c, buf, i, c);
    assert Kept(t, u, b);
    KernelWalk(u, c, buf, b);
  }

  lemma LandedKeepsPage(s: Space, t: Space, u: Space, g: nat, p: nat, c: nat, buf: nat, i: nat, page: nat)
    requires Inv(s) && CanCopy(s, p, c, buf) && i < USER_PAGES && Copying(s, t, p, c, buf, i) && Inv(u) && Extends(t, u)
    requires u.uVaddr == t.uVaddr && USER_BASE <= page < USER_BASE + i && g !in t.owner && g < |u.mem|
    requires var b := Target(s, KERNEL_DIR, buf); b < |u.mem| && Inv(Buffered(u, g, b))
    requires u.owner.Values == t.owner.Values + {UserPage(c, USER_BASE + i), Table(c, TableIndex(USER_BASE + i))}
    ensures PageCopied(s, Buffered(u, g, Target(s, KERNEL_DIR, buf)), p, c, page)
  {
    var v := Buffered(u, g, Target(s, KERNEL_DIR, buf));
    assert PageCopied(s, t, p, c, page);
    if s.uVaddr[p][page - USER_BASE] {
      var h := Target(t, c, page);
      UserWalk(t, c, page, h);
      assert Kept(t, u, h);
      UserWalk(v, c, page, h);
      assert DirOk(t, h);
    }
  }

  lemma LandedKeepsFrame(s: Space, t: Space, u: Space, v: Space, b: nat, g: nat, f: nat)
    requires KeptBut(s, t, b, f) && Extends(t, u) && u.uVaddr == s.uVaddr && t.uVaddr == s.uVaddr && |t.mem| == |s.mem|
    requires g !in t.owner && b < |u.mem| && g < |u.mem| && v == Buffered(u, g, b)
    ensures KeptBut(s, v, b, f)
  {
    assert Kept(t, u, f);
  }

  /** The copy of one page is complete. */
  lemma PageLands(s: Space, t: Space, u: Space, p: nat, c: nat, buf: nat, i: nat)
    requires Inv(s) && CanCopy(s, p, c, buf) && i < USER_PAGES && Copying(s, t, p, c, buf, i) && s.uVaddr[p][i]
    requires UserReserved(t, c, USER_BASE + i, 1)
    requires var f, b := Target(s, p, USER_BASE + i), Target(s, KERNEL_DIR, buf);
             f < |s.mem| && b < |t.mem| && t.mem[b] == s.mem[f]
    requires Inv(u) && Extends(t, u) && u.uVaddr == t.uVaddr
    requires u.owner.Values == t.owner.Values + {UserPage(c, USER_BASE + i), Table(c, TableIndex(USER_BASE + i))}
    requires SetFrom(s.uVaddr[p], i + 1) <= FreeCount(u.uPool)
    requires TablesFrom(s.uVaddr[p], Tables(u, c), i + 1) <= FreeCount(u.kPool)
    ensures var g, b := Target(u, c, USER_BASE + i), Target(s, KERNEL_DIR, buf);
            g < |u.mem| && b < |u.mem| && UserHeld(u, c, USER_BASE + i) && Copying(s, Buffered(u, g, b), p, c, buf, i + 1)
  {
    hide TableIndex, SlotIndex, Entry, FrameOf, Present, PageAt, FrameOk, PdeOk, PteOk, KernelPteOk, SetFrom, TablesFrom, FreeCount, KernelHeld;
    var page, b := USER_BASE + i, Target(s, KERNEL_DIR, buf);
    assert UserHole(t, c, page);
    var g := NewPage(t, u, c, page);
    BufferKept(s, t, u, p, c, buf, i);
    assert Frames(u.mem);
    DataKeepsInv(u, g, u.mem[b]);
    var v := Buffered(u, g, b);
    forall f ensures KeptBut(s, v, b, f) { LandedKeepsFrame(s, t, u, v, b, g, f); }
    forall q: nat | page + 1 > q >= USER_BASE
      ensures PageCopied(s, v, p, c, q)
    {
      if q < page {
        LandedKeepsPage(s, t, u, g, p, c, buf, i, q);
      } else {
        assert UserHeld(s, p, q);
        UserWalk(v, c, page, g);
      }
    }
    DirFrame(u, c);
    assert Tables(v, c) == Tables(u, c);
  }

  // ---------- The loop ----------

  /** memcpy of a page within the current address space. */
  method CopyPage(m: Memory, dst: nat, src: nat)
    requires Frames(m.mem) && m.cr3 < |m.mem| && dst < 1023 * ENTRIES && src < 1023 * ENTRIES
    requires Walk(m.mem, m.cr3, dst).Some? && Walk(m.mem, m.cr3, dst).value < |m.mem|
    requires Walk(m.mem, m.cr3, src).Some? && Walk(m.mem, m.cr3, src).value < |m.mem|
    modifies m`mem
    ensures m.View() == Buffered(old(m.View()), Walk(old(m.mem), m.cr3, dst).value, Walk(old(m.mem), m.cr3, src).value)
  {
    var to, from := Walk(m.mem, m.cr3, dst).value, Walk(m.mem, m.cr3, src).value;
    m.mem := m.mem[to := m.mem[from]];
  }

  /** get_a_page_without_opvaddrbitmap(PF_USER, page): the bitmap is left alone. */
  method GetAPageWithoutOpVaddrBitmap(m: Memory, page: nat) returns (ok: bool, lost: bool)
    requires m.Valid() && Inv(m.View()) && m.cr3 in m.uVaddr && UserReserved(m.View(), m.cr3, page, 1)
    modifies m`mem, m`kPool, m`uPool, m`owner, m`stopped
    ensures Inv(old(m.View())) && m.stopped == (old(m.stopped) || !ok)
    ensures lost <==> MapUserPages(old(m.View()), m.cr3, page, 1).NoTable?
    ensures !lost ==> m.Valid() && Inv(m.View()) && MapUserPages(old(m.View()), m.cr3, page, 1) == if ok then Done(m.View()) else NoFrame(m.View())
  {
    ok, lost := m.MapUserRun(page, 1);
  }

  /** The directories of parent and child lie in kernel pages pDir and cDir. */
  ghost predicate HaveDirs(s: Space, p: nat, c: nat, pDir: nat, cDir: nat) {
    KeepsDir(s, p, pDir) && KeepsDir(s, c, cDir)
  }

  /** The copy leaves the directories where they are. */
  lemma DirsStay(s: Space, r: Space, p: nat, c: nat, buf: nat, i: nat, pDir: nat, cDir: nat)
    requires Inv(s) && CanCopy(s, p, c, buf) && i <= USER_PAGES && Copying(s, r, p, c, buf, i) && HaveDirs(s, p, c, pDir, cDir)
    ensures HaveDirs(r, p, c, pDir, cDir)
  {
    hide CanCopy, Inv, PageCopied;
    assert KeptBut(s, r, Target(s, KERNEL_DIR, buf), p) && KeptBut(s, r, Target(s, KERNEL_DIR, buf), c);
  }

  /** Page i of the parent is in the buffer. */
  ghost predicate InBuffer(s: Space, t: Space, p: nat, c: nat, buf: nat, i: nat)
    requires Inv(s) && CanCopy(s, p, c, buf) && i < USER_PAGES
  {
    && Copying(s, t, p, c, buf, i) && UserReserved(t, c, USER_BASE + i, 1)
    && var f, b := Target(s, p, USER_BASE + i), Target(s, KERNEL_DIR, buf);
    f < |s.mem| && b < |t.mem| && t.mem[b] == s.mem[f]
  }

  /** The page goes from the parent to the buffer. */
  method ReadIntoBuffer(m: Memory, ghost s: Space, p: nat, c: nat, buf: nat, i: nat)
    requires Inv(s) && CanCopy(s, p, c, buf) && i < USER_PAGES && s.uVaddr[p][i]
    requires m.Valid() && m.cr3 == p && Copying(s, m.View(), p, c, buf, i)
    modifies m`mem
    ensures m.Valid() && InBuffer(s, m.View(), p, c, buf, i)
  {
    ghost var r := m.View();
    CopyingBits(s, r, p, c, buf, i);
    ParentPage(s, r, p, c, buf, i);
    BufferFrame(s, r, p, c, buf, i, p);
    BufferedKeepsInv(s, r, p, c, buf, i);
    hide Inv, CanCopy, Copying, UserReserved;
    CopyPage(m, buf, USER_BASE + i);
  }

  /** A frame for the page in the child, and the page goes from the buffer to the child. */
  method FillChildPage(m: Memory, ghost s: Space, p: nat, c: nat, buf: nat, i: nat)
    requires Inv(s) && CanCopy(s, p, c, buf) && i < USER_PAGES && s.uVaddr[p][i]
    requires m.Valid() && m.cr3 == c && InBuffer(s, m.View(), p, c, buf, i)
    modifies m`mem, m`kPool, m`uPool, m`owner, m`stopped
    ensures m.Valid() && Copying(s, m.View(), p, c, buf, i + 1) && m.stopped == old(m.stopped)
  {
    ghost var t := m.View();
    CopyingBits(s, t, p, c, buf, i);
    hide CanCopy, Copying, MapUserPages, Extends, UserReserved;
    ghost var u := ChildPage(s, t, p, c, buf, i);
    var ok, lost := GetAPageWithoutOpVaddrBitmap(m, USER_BASE + i);
    BufferKept(s, t, u, p, c, buf, i);
    PageLands(s, t, u, p, c, buf, i);
    CopyingBits(s, Buffered(u, Target(u, c, USER_BASE + i), Target(s, KERNEL_DIR, buf)), p, c, buf, i + 1);
    hide Inv;
    CopyPage(m, USER_BASE + i, buf);
  }

  /** The body of the inner loop, for a page whose bit is set. */
  method CopyOnePage(m: Memory, ghost s: Space, p: nat, c: nat, pDir: nat, cDir: nat, buf: nat, i: nat)
    requires Inv(s) && CanCopy(s, p, c, buf) && i < USER_PAGES && s.uVaddr[p][i] && HaveDirs(s, p, c, pDir, cDir)
    requires m.Valid() && m.cr3 == p && Copying(s, m.View(), p, c, buf, i)
    modifies m
    ensures m.Valid() && m.cr3 == p && Copying(s, m.View(), p, c, buf, i + 1) && m.stopped == old(m.stopped)
  {
    hide Inv, CanCopy, Copying, KeepsDir;
    ReadIntoBuffer(m, s, p, c, buf, i);
    DirsStay(s, m.View(), p, c, buf, i, pDir, cDir);
    m.Activate(Some(cDir), c);
    FillChildPage(m, s, p, c, buf, i);
    DirsStay(s, m.View(), p, c, buf, i + 1, pDir, cDir);
    m.Activate(Some(pDir), p);
  }

  /** copy_body_stack3. The frames suffice, so that no scan meets a full bitmap. */
  method CopyBodyStack3(m: Memory, p: nat, c: nat, pDir: nat, cDir: nat, buf: nat)
    requires m.Valid() && Inv(m.View()) && m.cr3 == p && CanCopy(m.View(), p, c, buf) && HaveDirs(m.View(), p, c, pDir, cDir)
    modifies m
    ensures m.Valid() && m.cr3 == p && Inv(old(m.View())) && CanCopy(old(m.View()), p, c, buf) && m.stopped == old(m.stopped)
    ensures Copying(old(m.View()), m.View(), p, c, buf, USER_PAGES)
  {
    ghost var s := m.View();
    CopyStarts(s, p, c, buf);
    var idxByte := 0;
    while idxByte < USER_PAGES / 8
      invariant 0 <= idxByte <= USER_PAGES / 8
      invariant m.Valid() && m.cr3 == p && Copying(s, m.View(), p, c, buf, 8 * idxByte) && m.stopped == old(m.stopped)
    {
      CopyByte(m, s, p, c, pDir, cDir, buf, idxByte);
      idxByte := idxByte + 1;
    }
  }

  /** One byte of the bitmap; a zero byte is not looked into. */
  method CopyByte(m: Memory, ghost s: Space, p: nat, c: nat, pDir: nat, cDir: nat, buf: nat, idxByte: nat)
    requires Inv(s) && CanCopy(s, p, c, buf) && 8 * idxByte + 8 <= USER_PAGES && HaveDirs(s, p, c, pDir, cDir)
    requires m.Valid() && m.cr3 == p && Copying(s, m.View(), p, c, buf, 8 * idxByte)
    modifies m
    ensures m.Valid() && m.cr3 == p && Copying(s, m.View(), p, c, buf, 8 * idxByte + 8) && m.stopped == old(m.stopped)
  {
    CopyingBits(s, m.View(), p, c, buf, 8 * idxByte);
    hide Inv, CanCopy, Copying, HaveDirs;
    if (forall k :: 8 * idxByte <= k < 8 * idxByte + 8 ==> !m.uVaddr[p][k]) {
      SkipClearByte(s, m.View(), p, c, buf, 8 * idxByte, 8);
      return;
    }
    var idxBit := 0;
    while idxBit < 8
      invariant 0 <= idxBit <= 8
      invariant m.Valid() && m.cr3 == p && Copying(s, m.View(), p, c, buf, 8 * idxByte + idxBit) && m.stopped == old(m.stopped)
    {
      CopyingBits(s, m.View(), p, c, buf, 8 * idxByte + idxBit);
      if m.uVaddr[p][8 * idxByte + idxBit] {
        CopyOnePage(m, s, p, c, pDir, cDir, buf, 8 * idxByte + idxBit);
      } else {
        SkipClear(s, m.View(), p, c, buf, 8 * idxByte + idxBit);
      }
      idxBit := idxBit + 1;
    }
  }

  lemma CopyingBits(s: Space, r: Space, p: nat, c: nat, buf: nat, i: nat)
    requires Inv(s) && CanCopy(s, p, c, buf) && i <= USER_PAGES && Copying(s, r, p, c, buf, i)
    ensures r.uVaddr == s.uVaddr && p in s.uVaddr && c in s.uVaddr && |s.uVaddr[p]| == USER_PAGES
  {}

  lemma SkipClearByte(s: Space, r: Space, p: nat, c: nat, buf: nat, i: nat, n: nat)
    requires Inv(s) && CanCopy(s, p, c, buf) && i + n <= USER_PAGES && Copying(s, r, p, c, buf, i)
    requires forall k :: i <= k < i + n ==> !s.uVaddr[p][k]
    ensures Copying(s, r, p, c, buf, i + n)
    decreases n
  {
    if n > 0 {
      SkipClear(s, r, p, c, buf, i);
      SkipClearByte(s, r, p, c, buf, i + 1, n - 1);
    }
  }

  // ---------- What fork has achieved ----------

  /** The child maps exactly the pages that the parent maps, on frames of its own that hold the same;
      the parent's pages are where they were and hold what they held. */
  lemma ForkedPage(s: Space, r: Space, p: nat, c: nat, buf: nat, page: nat)
    requires Inv(s) && CanCopy(s, p, c, buf) && Copying(s, r, p, c, buf, USER_PAGES) && page < KERNEL_PDE * ENTRIES
    ensures p < |s.mem| && p < |r.mem| && c < |r.mem| && Frames(r.mem)
    ensures Walk(r.mem, p, page) == Walk(s.mem, p, page)
    ensures Walk(r.mem, c, page).Some? <==> Walk(s.mem, p, page).Some?
    ensures Walk(s.mem, p, page).Some? ==>
              var f, g := Walk(s.mem, p, page).value, Walk(r.mem, c, page).value;
              && f < |s.mem| && g < |r.mem| && f < |r.mem|
              && r.mem[g] == s.mem[f] && r.mem[f] == s.mem[f]
              && g !in s.owner && UserFrame(r, g)
  {
    DirFrame(s, p);
    DirFrame(r, p);
    DirFrame(r, c);
    if Walk(s.mem, p, page).Some? {
      ParentKept(s, r, p, c, buf, page);
      ChildHas(s, r, p, c, buf, page);
    } else {
      ParentHasNoMore(s, r, p, c, buf, page);
    }
  }

  lemma ParentKept(s: Space, r: Space, p: nat, c: nat, buf: nat, page: nat)
    requires Inv(s) && CanCopy(s, p, c, buf) && Copying(s, r, p, c, buf, USER_PAGES) && page < KERNEL_PDE * ENTRIES
    requires p < |s.mem| && Walk(s.mem, p, page).Some?
    ensures var f := Walk(s.mem, p, page).value;
            && USER_BASE <= page < USER_BASE + USER_PAGES && s.uVaddr[p][page - USER_BASE] && f in s.owner && s.owner[f] == UserPage(p, page)
            && p < |r.mem| && Frames(r.mem) && Walk(r.mem, p, page) == Some(f) && f < |s.mem| && f < |r.mem| && r.mem[f] == s.mem[f]
  {
    var f := Walk(s.mem, p, page).value;
    UserWalk(s, p, page, f);
    assert FrameOk(s, f);
    OwnedFrames(s, f);
    KeptFrame(s, r, p, c, buf, page, f);
  }

  lemma KeptFrame(s: Space, r: Space, p: nat, c: nat, buf: nat, page: nat, f: nat)
    requires Inv(s) && CanCopy(s, p, c, buf) && Copying(s, r, p, c, buf, USER_PAGES) && page < KERNEL_PDE * ENTRIES
    requires f in s.owner && s.owner[f] == UserPage(p, page) && f < |s.mem|
    ensures p < |r.mem| && Frames(r.mem) && Walk(r.mem, p, page) == Some(f) && r.mem[f] == s.mem[f]
  {
    var b := Target(s, KERNEL_DIR, buf);
    KernelWalk(s, KERNEL_DIR, buf, b);
    assert KeptBut(s, r, b, f) && DirOk(s, f);
    UserWalk(r, p, page, f);
  }

  lemma ChildHas(s: Space, r: Space, p: nat, c: nat, buf: nat, page: nat)
    requires Inv(s) && CanCopy(s, p, c, buf) && Copying(s, r, p, c, buf, USER_PAGES)
    requires USER_BASE <= page < USER_BASE + USER_PAGES && s.uVaddr[p][page - USER_BASE]
    ensures UserHeld(s, p, page) && UserHeld(r, c, page)
    ensures var f, g := Target(s, p, page), Target(r, c, page);
            f < |s.mem| && g < |r.mem| && r.mem[g] == s.mem[f] && g !in s.owner && UserFrame(r, g)
  {
    assert PageCopied(s, r, p, c, page);
    var g, b := Target(r, c, page), Target(s, KERNEL_DIR, buf);
    UserWalk(r, c, page, g);
    OwnedFrames(r, g);
    assert KeptBut(s, r, b, g);
    if g in s.owner {
      UseIsIn(s.owner, g);
    }
  }

  lemma UseIsIn(owner: map<nat, Use>, g: nat)
    requires g in owner
    ensures owner[g] in owner.Values
  {}

  lemma SetBitsAreMapped(s: Space, r: Space, p: nat, c: nat, buf: nat, d: nat, page: nat)
    requires Inv(s) && CanCopy(s, p, c, buf) && Copying(s, r, p, c, buf, USER_PAGES) && page < KERNEL_PDE * ENTRIES
    requires (d == p || d == c) && d < |r.mem| && Walk(r.mem, d, page).Some?
    ensures UserHeld(s, p, page)
  {
    var g := Target(r, d, page);
    UserWalk(r, d, page, g);
    assert FrameOk(r, g);
  }

  lemma ParentHasNoMore(s: Space, r: Space, p: nat, c: nat, buf: nat, page: nat)
    requires Inv(s) && CanCopy(s, p, c, buf) && Copying(s, r, p, c, buf, USER_PAGES) && page < KERNEL_PDE * ENTRIES
    requires p < |s.mem| && Walk(s.mem, p, page).None?
    ensures p < |r.mem| && c < |r.mem| && Frames(r.mem) && Walk(r.mem, p, page).None? && Walk(r.mem, c, page).None?
  {
    DirFrame(r, p);
    DirFrame(r, c);
    if Walk(r.mem, p, page).Some? {
      SetBitsAreMapped(s, r, p, c, buf, p, page);
    }
    if Walk(r.mem, c, page).Some? {
      SetBitsAreMapped(s, r, p, c, buf, c, page);
    }
  }
}
