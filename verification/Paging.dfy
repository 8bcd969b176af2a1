/**
  Physical frames, page tables and virtual-address bitmaps (kernel/memory.c, up to mfree_page).

  Physical memory is a sequence of frames of 1024 words; page directories and page tables are
  frames like any other, so the model shares the source's main difficulty: a mapping is data in the
  memory it maps. `owner` records what each allocated frame is used for; it is bookkeeping for the
  proofs and no routine reads it.
 */
module Paging {
  import opened Outcomes
  import opened Bitmap

  const KERNEL_DIR := 0x100          // the kernel's page directory is at 1 MB
  const KERNEL_PDE := 768            // entries 768 to 1022 of a directory map the kernel
  const KERNEL_HEAP := 0xc0100       // K_HEAP_START, as a page number
  const USER_BASE := 0x8048          // USER_VADDR_START
  const USER_PAGES := 0xc0000 - 0x8048
  const ENTRIES := 1024

  datatype Use =
    | KernelPage(page: nat)                // mapped at this page of the kernel heap
    | Table(dir: nat, index: nat)          // the page table at this entry of a process's directory
    | UserPage(dir: nat, page: nat)        // mapped at this page of a process

  /** `kVaddr` and `uVaddr[d]` are the bitmaps of the kernel heap's pages and of the pages of the
      process with directory d; the keys of `uVaddr` are the processes. */
  datatype Space = Space(
    mem: seq<seq<nat>>, kStart: nat, uStart: nat, kPool: seq<bool>, uPool: seq<bool>,
    kVaddr: seq<bool>, uVaddr: map<nat, seq<bool>>, owner: map<nat, Use>)

  // ---------- Entries and the address translation of the processor ----------

  /** frame address | PG_US_U | PG_RW_W | PG_P_1; the low 12 bits of a frame address are 0. */
  function Entry(frame: nat): (e: nat)
    ensures Present(e) && FrameOf(e) == frame
  {
    frame * 4096 + 7
  }

  predicate Present(e: nat) {
    e % 2 == 1
  }

  function FrameOf(e: nat): nat {
    e / 4096
  }

  /** page_table_pte_remove clears the present bit and leaves the frame address behind. */
  function Unmapped(e: nat): (r: nat)
    ensures e == Entry(FrameOf(e)) ==> !Present(r) && FrameOf(r) == FrameOf(e)
  {
    if Present(e) then e - 1 else e
  }

  /** The bits of an entry: present, writable and open to user code; removing it clears the first only. */
  lemma EntryBits(frame: nat)
    ensures var e := Entry(frame);
            && e % 2 == 1 && e / 2 % 2 == 1 && e / 4 % 2 == 1 && e % 4096 < 8 && e / 4096 == frame
            && Unmapped(e) % 2 == 0 && Unmapped(e) / 2 == e / 2
  {
    LowBits(512 * frame);
    assert Entry(frame) == 8 * (512 * frame) + 7;
  }

  lemma LowBits(a: nat)
    ensures var e := 8 * a + 7;
            e % 2 == 1 && e / 2 == 4 * a + 3 && e / 2 % 2 == 1 && e / 4 == 2 * a + 1 && e / 4 % 2 == 1 && (e - 1) % 2 == 0 && (e - 1) / 2 == e / 2
  {}

  /** The page-directory index and the page-table index of a page number. */
  function TableIndex(page: nat): (i: nat)
    ensures page < ENTRIES * ENTRIES ==> i < ENTRIES
    ensures page < KERNEL_PDE * ENTRIES <==> i < KERNEL_PDE
    ensures page < 1023 * ENTRIES <==> i < 1023
  {
    page / ENTRIES
  }

  function SlotIndex(page: nat): (j: nat)
    ensures j < ENTRIES && PageAt(TableIndex(page), j) == page
  {
    page % ENTRIES
  }

  function PageAt(i: nat, j: nat): (page: nat)
    ensures j < ENTRIES ==> TableIndex(page) == i && page % ENTRIES == j
  {
    i * ENTRIES + j
  }

  predicate Frames(mem: seq<seq<nat>>) {
    forall f :: 0 <= f < |mem| ==> |mem[f]| == ENTRIES
  }

  /** The two-level walk of section 4.3, "32-Bit Paging": the frame that page `page` is mapped to
      under directory `dir`. */
  function Walk(mem: seq<seq<nat>>, dir: nat, page: nat): Option<nat>
    requires Frames(mem) && dir < |mem| && page < ENTRIES * ENTRIES
  {
    var pde := mem[dir][TableIndex(page)];
    if !Present(pde) || FrameOf(pde) >= |mem| then None
    else
      var pte := mem[FrameOf(pde)][SlotIndex(page)];
      if !Present(pte) then None else Some(FrameOf(pte))
  }

  function PdeIdx(vaddr: nat): nat {
    vaddr / 0x40_0000
  }

  function PteIdx(vaddr: nat): nat {
    vaddr / 0x1000 % 0x400
  }

  /** pte_ptr and pde_ptr, on addresses below 2^32. */
  function PtePtr(vaddr: nat): nat {
    0xffc0_0000 + PdeIdx(vaddr) * 0x1000 + PteIdx(vaddr) * 4
  }

  function PdePtr(vaddr: nat): nat {
    0xffff_f000 + PdeIdx(vaddr) * 4
  }

  /** The two pointers, taken apart into a page number and a word index. */
  lemma PointerParts(vaddr: nat)
    requires vaddr < 0x1_0000_0000
    ensures PdeIdx(vaddr) < ENTRIES && PteIdx(vaddr) < ENTRIES
    ensures PdePtr(vaddr) < 0x1_0000_0000 && PdePtr(vaddr) / 4096 == 0xfffff && PdePtr(vaddr) % 4096 / 4 == PdeIdx(vaddr)
    ensures PtePtr(vaddr) < 0x1_0000_0000 && PtePtr(vaddr) / 4096 == 0xffc00 + PdeIdx(vaddr) && PtePtr(vaddr) % 4096 / 4 == PteIdx(vaddr)
  {
    var i, j := PdeIdx(vaddr), PteIdx(vaddr);
    assert i < ENTRIES && j < ENTRIES;
    assert PdePtr(vaddr) == 4096 * 0xfffff + 4 * i;
    assert PtePtr(vaddr) == 4096 * (0xffc00 + i) + 4 * j;
  }

  lemma VaddrIndices(vaddr: nat)
    requires vaddr < 0x1_0000_0000
    ensures TableIndex(vaddr / 4096) == PdeIdx(vaddr) && SlotIndex(vaddr / 4096) == PteIdx(vaddr)
  {
    var q := vaddr / 4096;
    assert 4096 * q <= vaddr < 4096 * q + 4096;
    var i := q / 1024;
    assert 1024 * i <= q < 1024 * i + 1024;
    assert 0x40_0000 * i <= vaddr < 0x40_0000 * i + 0x40_0000;
  }

  lemma TopIndices(i: nat)
    requires i < ENTRIES
    ensures TableIndex(0xffc00 + i) == 1023 && SlotIndex(0xffc00 + i) == i
  {}

  /** The self-map: in a directory whose last entry points to itself, the addresses computed by
      pde_ptr and pte_ptr translate to the directory entry and the page-table entry of vaddr. */
  lemma SelfMap(mem: seq<seq<nat>>, dir: nat, vaddr: nat)
    requires Frames(mem) && dir < |mem| && vaddr < 0x1_0000_0000 && mem[dir][1023] == Entry(dir)
    ensures PdePtr(vaddr) < 0x1_0000_0000 && PtePtr(vaddr) < 0x1_0000_0000
    ensures Walk(mem, dir, PdePtr(vaddr) / 4096) == Some(dir)
    ensures PdePtr(vaddr) % 4096 / 4 == PdeIdx(vaddr) && PtePtr(vaddr) % 4096 / 4 == PteIdx(vaddr)
    ensures PdeIdx(vaddr) < ENTRIES && PteIdx(vaddr) < ENTRIES
    ensures Present(mem[dir][PdeIdx(vaddr)]) && FrameOf(mem[dir][PdeIdx(vaddr)]) < |mem| ==>
              && Walk(mem, dir, PtePtr(vaddr) / 4096) == Some(FrameOf(mem[dir][PdeIdx(vaddr)]))
              && Walk(mem, dir, vaddr / 4096) ==
                 var pte := mem[FrameOf(mem[dir][PdeIdx(vaddr)])][PteIdx(vaddr)];
                 if Present(pte) then Some(FrameOf(pte)) else None
  {
    PointerParts(vaddr);
    VaddrIndices(vaddr);
    TopIndices(PdeIdx(vaddr));
    TopIndices(1023);
    hide PdeIdx, PteIdx, PdePtr, PtePtr, TableIndex, SlotIndex, Entry, FrameOf, Present, PageAt;
    assert 0xfffff == 0xffc00 + 1023;
  }

  // ---------- The invariant ----------

  predicate KernelFrame(s: Space, f: nat) {
    s.kStart <= f < s.kStart + |s.kPool|
  }

  predicate UserFrame(s: Space, f: nat) {
    s.uStart <= f < s.uStart + |s.uPool|
  }

  predicate Allocated(s: Space, f: nat) {
    (KernelFrame(s, f) && s.kPool[f - s.kStart]) || (UserFrame(s, f) && s.uPool[f - s.uStart])
  }

  function KernelTable(i: nat): nat
    requires KERNEL_PDE <= i
  {
    KERNEL_DIR + 1 + (i - KERNEL_PDE)
  }

  predicate Geometry(s: Space) {
    && KERNEL_DIR + 256 <= s.kStart && s.kStart + |s.kPool| <= s.uStart && s.uStart + |s.uPool| <= |s.mem|
    && Frames(s.mem)
    && KERNEL_HEAP + |s.kVaddr| <= 1023 * ENTRIES
    && (forall d :: d in s.uVaddr ==> |s.uVaddr[d]| == USER_PAGES)
  }

  /** The frame of the page table that holds the entry of page `page` of process d. */
  function TableFrame(s: Space, d: nat, page: nat): nat
    requires Frames(s.mem) && d < |s.mem| && page < ENTRIES * ENTRIES
  {
    FrameOf(s.mem[d][TableIndex(page)])
  }

  function KernelPte(s: Space, page: nat): nat
    requires Geometry(s) && KERNEL_HEAP <= page < 1023 * ENTRIES
  {
    s.mem[KernelTable(TableIndex(page))][SlotIndex(page)]
  }

  /** Frame f is mapped at a kernel heap page whose bit is set. */
  predicate KernelMapped(s: Space, page: nat, f: nat)
    requires Geometry(s)
  {
    && KERNEL_HEAP <= page < KERNEL_HEAP + |s.kVaddr| && s.kVaddr[page - KERNEL_HEAP]
    && KernelPte(s, page) == Entry(f)
  }

  /** Entry i of the directory of process d points to the page table in frame f. */
  predicate TableAt(s: Space, d: nat, i: nat, f: nat)
    requires Geometry(s)
  {
    d in s.uVaddr && d < |s.mem| && i < KERNEL_PDE && s.mem[d][i] == Entry(f)
  }

  /** Page `page` of process d is mapped to frame f, and its bit is set. */
  predicate UserMapped(s: Space, d: nat, page: nat, f: nat)
    requires Geometry(s)
  {
    && d in s.uVaddr && d < |s.mem|
    && USER_BASE <= page < USER_BASE + USER_PAGES && s.uVaddr[d][page - USER_BASE]
    && Present(s.mem[d][TableIndex(page)])
    && TableFrame(s, d, page) in s.owner && s.owner[TableFrame(s, d, page)] == Table(d, TableIndex(page))
    && TableFrame(s, d, page) < |s.mem|
    && s.mem[TableFrame(s, d, page)][SlotIndex(page)] == Entry(f)
  }

  // The invariant is the conjunction of the following facts over all frames, directories, entries
  // and pages. Each is used where a proof names it, and nowhere else.

  /** Frame f is owned exactly when its pool bit is set, by a use of the right pool, and the entry
      that use stands for really points to f. */
  predicate FrameOk(s: Space, f: nat)
    requires Geometry(s)
  {
    && (f in s.owner <==> Allocated(s, f))
    && (f in s.owner ==> (UserFrame(s, f) <==> s.owner[f].UserPage?))
    && (f in s.owner ==>
          match s.owner[f]
          case KernelPage(page) => KernelMapped(s, page, f)
          case Table(d, i) => TableAt(s, d, i, f)
          case UserPage(d, page) => UserMapped(s, d, page, f))
  }

  /** The directory of a process lies in a kernel page, maps itself and shares the kernel's tables. */
  ghost predicate DirOk(s: Space, d: nat)
    requires Geometry(s)
  {
    d in s.uVaddr ==> d in s.owner && s.owner[d].KernelPage? && d < |s.mem| && KernelHalf(s, d)
  }

  ghost predicate KernelHalf(s: Space, d: nat)
    requires Geometry(s) && d < |s.mem|
  {
    && s.mem[d][1023] == Entry(d)
    && forall i :: KERNEL_PDE <= i < 1023 ==> s.mem[d][i] == Entry(KernelTable(i))
  }

  /** A present user entry of a directory points to a frame owned as that page table. */
  predicate PdeOk(s: Space, d: nat, i: nat)
    requires Geometry(s)
  {
    d in s.uVaddr && d < |s.mem| && i < KERNEL_PDE && Present(s.mem[d][i]) ==>
      FrameOf(s.mem[d][i]) in s.owner && s.owner[FrameOf(s.mem[d][i])] == Table(d, i)
  }

  /** A present entry of a process's page table points to a frame owned as that user page. */
  predicate PteOk(s: Space, t: nat, j: nat)
    requires Geometry(s)
  {
    t in s.owner && s.owner[t].Table? && t < |s.mem| && j < ENTRIES && Present(s.mem[t][j]) ==>
      && FrameOf(s.mem[t][j]) in s.owner
      && s.owner[FrameOf(s.mem[t][j])] == UserPage(s.owner[t].dir, PageAt(s.owner[t].index, j))
  }

  /** A present entry of the kernel heap's page tables points to a frame owned as that kernel page. */
  predicate KernelPteOk(s: Space, page: nat)
    requires Geometry(s)
  {
    KERNEL_HEAP <= page < 1023 * ENTRIES && Present(KernelPte(s, page)) ==>
      && FrameOf(KernelPte(s, page)) in s.owner
      && s.owner[FrameOf(KernelPte(s, page))] == KernelPage(page)
  }

  ghost predicate Inv(s: Space) {
    && Geometry(s) && KernelHalf(s, KERNEL_DIR)
    && (forall f {:trigger FrameOk(s, f)} :: FrameOk(s, f))
    && (forall d {:trigger DirOk(s, d)} :: DirOk(s, d))
    && (forall d, i {:trigger PdeOk(s, d, i)} :: PdeOk(s, d, i))
    && (forall t, j {:trigger PteOk(s, t, j)} :: PteOk(s, t, j))
    && (forall page {:trigger KernelPteOk(s, page)} :: KernelPteOk(s, page))
  }

  // ---------- Frames are kept apart by their use ----------

  lemma OwnedFrames(s: Space, f: nat)
    requires Inv(s) && f in s.owner
    ensures FrameOk(s, f) && (if s.owner[f].UserPage? then UserFrame(s, f) && s.uPool[f - s.uStart]
                              else KernelFrame(s, f) && s.kPool[f - s.kStart])
    ensures KERNEL_DIR + 256 <= f < |s.mem|
  {
    assert FrameOk(s, f);
  }

  lemma FreeFrame(s: Space, f: nat)
    requires Inv(s) && !Allocated(s, f)
    ensures f !in s.owner && f !in s.uVaddr
  {
    assert FrameOk(s, f) && DirOk(s, f);
  }

  lemma TableOwned(s: Space, d: nat, page: nat)
    requires Inv(s) && d in s.uVaddr && page < KERNEL_PDE * ENTRIES && d < |s.mem| && Present(s.mem[d][TableIndex(page)])
    ensures var t := TableFrame(s, d, page);
            && t in s.owner && s.owner[t] == Table(d, TableIndex(page)) && KERNEL_DIR + 256 <= t < |s.mem|
            && t !in s.uVaddr && s.mem[d][TableIndex(page)] == Entry(t)
  {
    assert PdeOk(s, d, TableIndex(page));
    OwnedFrames(s, TableFrame(s, d, page));
    assert DirOk(s, TableFrame(s, d, page));
  }

  lemma DirFrame(s: Space, d: nat)
    requires Inv(s) && d in s.uVaddr
    ensures d in s.owner && s.owner[d].KernelPage? && KERNEL_DIR + 256 <= d < |s.mem| && KernelHalf(s, d)
  {
    assert DirOk(s, d);
    OwnedFrames(s, d);
  }

  // ---------- One word of a page table changes ----------

  function SetWord(mem: seq<seq<nat>>, f: nat, i: nat, w: nat): (r: seq<seq<nat>>)
    requires f < |mem| && i < |mem[f]|
    ensures |r| == |mem| && Frames(mem) ==> Frames(r)
  {
    var frame: seq<nat> := mem[f][i := w];
    mem[f := frame]
  }

  predicate SamePlan(s: Space, r: Space) {
    && r.kStart == s.kStart && r.uStart == s.uStart && |r.kPool| == |s.kPool| && |r.uPool| == |s.uPool|
    && r.kVaddr == s.kVaddr && r.uVaddr == s.uVaddr
  }

  /** Frame g went from free to `use`. */
  predicate Taken(s: Space, r: Space, g: nat, use: Use) {
    && SamePlan(s, r) && r.owner == s.owner[g := use]
    && if use.UserPage? then UserFrame(s, g) && !s.uPool[g - s.uStart] && r.kPool == s.kPool && r.uPool == s.uPool[g - s.uStart := true]
       else KernelFrame(s, g) && !s.kPool[g - s.kStart] && r.uPool == s.uPool && r.kPool == s.kPool[g - s.kStart := true]
  }

  /** Frame g went from its use back to its pool. */
  predicate Freed(s: Space, r: Space, g: nat) {
    && SamePlan(s, r) && g in s.owner && r.owner == s.owner - {g}
    && if UserFrame(s, g) then r.kPool == s.kPool && r.uPool == s.uPool[g - s.uStart := false]
       else KernelFrame(s, g) && r.uPool == s.uPool && r.kPool == s.kPool[g - s.kStart := false]
  }

  lemma TakenFrame(s: Space, r: Space, g: nat, use: Use, f: nat)
    requires Geometry(s) && Taken(s, r, g, use)
    ensures Allocated(r, f) <==> f == g || Allocated(s, f)
    ensures (UserFrame(r, f) <==> UserFrame(s, f)) && (f == g ==> (UserFrame(s, f) <==> use.UserPage?))
  {}

  lemma FreedFrame(s: Space, r: Space, g: nat, f: nat)
    requires Geometry(s) && Freed(s, r, g)
    ensures Allocated(r, f) <==> f != g && Allocated(s, f)
    ensures UserFrame(r, f) <==> UserFrame(s, f)
  {}

  /** The word at (F, J) is an entry of a process's page table, or of a kernel page table. */
  predicate PteWord(s: Space, F: nat, J: nat)
  {
    && F < |s.mem| && J < ENTRIES
    && ((F in s.owner && s.owner[F].Table?) || KERNEL_DIR < F < KERNEL_DIR + 256)
  }

  /** The directories do not notice a change of a page-table word. */
  lemma WordKeepsDirs(s: Space, r: Space, F: nat, J: nat, w: nat, d: nat)
    requires Inv(s) && PteWord(s, F, J) && r.mem == SetWord(s.mem, F, J, w) && Geometry(r)
    requires r.uVaddr == s.uVaddr && d in s.uVaddr
    ensures d < |s.mem| && d != F && r.mem[d] == s.mem[d]
  {
    DirFrame(s, d);
    if F in s.owner {
      OwnedFrames(s, F);
    }
  }

  lemma WordKeepsKernelDir(s: Space, r: Space, F: nat, J: nat, w: nat)
    requires Inv(s) && PteWord(s, F, J) && r.mem == SetWord(s.mem, F, J, w) && Geometry(r)
    ensures KernelHalf(r, KERNEL_DIR)
  {
    if F in s.owner {
      OwnedFrames(s, F);
    }
  }

  /** What frame f stands for is untouched when its own entry is not the word that changed. */
  lemma WordKeepsFrame(s: Space, r: Space, F: nat, J: nat, w: nat, f: nat)
    requires Inv(s) && PteWord(s, F, J) && r.mem == SetWord(s.mem, F, J, w) && Geometry(r)
    requires r.uVaddr == s.uVaddr && r.kVaddr == s.kVaddr
    requires f in s.owner && f in r.owner && r.owner[f] == s.owner[f]
    requires forall t :: t in s.owner && s.owner[t].Table? ==> t in r.owner && r.owner[t] == s.owner[t]
    requires match s.owner[f]
             case KernelPage(page) => KERNEL_HEAP <= page < 1023 * ENTRIES ==> !(KernelTable(TableIndex(page)) == F && SlotIndex(page) == J)
             case Table(_, _) => true
             case UserPage(d, page) =>
               d < |s.mem| && page < ENTRIES * ENTRIES ==> !(TableFrame(s, d, page) == F && SlotIndex(page) == J)
    ensures match r.owner[f]
            case KernelPage(page) => KernelMapped(r, page, f)
            case Table(d, i) => TableAt(r, d, i, f)
            case UserPage(d, page) => UserMapped(r, d, page, f)
  {
    assert FrameOk(s, f);
    match s.owner[f]
    case KernelPage(page) =>
    case Table(d, i) => WordKeepsDirs(s, r, F, J, w, d);
    case UserPage(d, page) => WordKeepsDirs(s, r, F, J, w, d);
  }

  // ---------- Mapping a user page ----------

  /** A free user frame is mapped at an unmapped page whose table exists. */
  function MapUser(s: Space, d: nat, page: nat, g: nat): Space
    requires Frames(s.mem) && d < |s.mem| && page < ENTRIES * ENTRIES && TableFrame(s, d, page) < |s.mem| && UserFrame(s, g)
  {
    s.(mem := SetWord(s.mem, TableFrame(s, d, page), SlotIndex(page), Entry(g)),
       uPool := s.uPool[g - s.uStart := true], owner := s.owner[g := UserPage(d, page)])
  }

  ghost predicate CanMapUser(s: Space, d: nat, page: nat, g: nat)
    requires Geometry(s)
  {
    && d in s.uVaddr && d < |s.mem| && USER_BASE <= page < USER_BASE + USER_PAGES && s.uVaddr[d][page - USER_BASE]
    && Present(s.mem[d][TableIndex(page)]) && TableFrame(s, d, page) < |s.mem|
    && !Present(s.mem[TableFrame(s, d, page)][SlotIndex(page)])
    && UserFrame(s, g) && !s.uPool[g - s.uStart]
  }

  lemma MapUserFrame(s: Space, d: nat, page: nat, g: nat, f: nat)
    requires Inv(s) && CanMapUser(s, d, page, g) && Geometry(MapUser(s, d, page, g))
    ensures FrameOk(MapUser(s, d, page, g), f)
  {
    var r := MapUser(s, d, page, g);
    var t := TableFrame(s, d, page);
    TableOwned(s, d, page);
    FreeFrame(s, g);
    TakenFrame(s, r, g, UserPage(d, page), f);
    assert FrameOk(s, f);
    if f == g {
      WordKeepsDirs(s, r, t, SlotIndex(page), Entry(g), d);
    } else if f in s.owner {
      assert forall t' :: t' in s.owner && s.owner[t'].Table? ==> t' in r.owner && r.owner[t'] == s.owner[t'];
      WordKeepsFrame(s, r, t, SlotIndex(page), Entry(g), f);
    }
  }

  lemma MapUserPte(s: Space, d: nat, page: nat, g: nat, t': nat, j: nat)
    requires Inv(s) && CanMapUser(s, d, page, g) && Geometry(MapUser(s, d, page, g))
    ensures PteOk(MapUser(s, d, page, g), t', j)
  {
    TableOwned(s, d, page);
    FreeFrame(s, g);
    assert PteOk(s, t', j);
  }

  lemma MapUserKeepsInv(s: Space, d: nat, page: nat, g: nat)
    requires Inv(s) && CanMapUser(s, d, page, g)
    ensures Inv(MapUser(s, d, page, g))
  {
    var r := MapUser(s, d, page, g);
    var t := TableFrame(s, d, page);
    TableOwned(s, d, page);
    FreeFrame(s, g);
    assert Geometry(r);
    WordKeepsKernelDir(s, r, t, SlotIndex(page), Entry(g));
    forall f ensures FrameOk(r, f) { MapUserFrame(s, d, page, g, f); }
    forall t', j ensures PteOk(r, t', j) { MapUserPte(s, d, page, g, t', j); }
    forall d' ensures DirOk(r, d') { assert DirOk(s, d'); if d' in s.uVaddr { WordKeepsDirs(s, r, t, SlotIndex(page), Entry(g), d'); } }
    forall d', i ensures PdeOk(r, d', i) { assert PdeOk(s, d', i); if d' in s.uVaddr { WordKeepsDirs(s, r, t, SlotIndex(page), Entry(g), d'); } }
    forall p ensures KernelPteOk(r, p) { assert KernelPteOk(s, p); }
  }

  // ---------- Unmapping a user page ----------

  function UnmapUser(s: Space, d: nat, page: nat, g: nat): Space
    requires Frames(s.mem) && d < |s.mem| && page < ENTRIES * ENTRIES && TableFrame(s, d, page) < |s.mem| && UserFrame(s, g)
  {
    s.(mem := SetWord(s.mem, TableFrame(s, d, page), SlotIndex(page), Unmapped(Entry(g))),
       uPool := s.uPool[g - s.uStart := false], owner := s.owner - {g})
  }

  lemma UserPageMapped(s: Space, d: nat, page: nat, g: nat)
    requires Inv(s) && g in s.owner && s.owner[g] == UserPage(d, page)
    ensures UserMapped(s, d, page, g) && UserFrame(s, g)
  {
    assert FrameOk(s, g);
  }

  lemma UnmapUserFrame(s: Space, d: nat, page: nat, g: nat, f: nat)
    requires Inv(s) && g in s.owner && s.owner[g] == UserPage(d, page) && UserMapped(s, d, page, g) && UserFrame(s, g)
    requires Geometry(UnmapUser(s, d, page, g))
    ensures FrameOk(UnmapUser(s, d, page, g), f)
  {
    var r := UnmapUser(s, d, page, g);
    FreedFrame(s, r, g, f);
    assert FrameOk(s, f);
    if f in r.owner {
      OwnedFrames(s, TableFrame(s, d, page));
      assert forall t' :: t' in s.owner && s.owner[t'].Table? ==> t' in r.owner && r.owner[t'] == s.owner[t'];
      WordKeepsFrame(s, r, TableFrame(s, d, page), SlotIndex(page), Unmapped(Entry(g)), f);
    }
  }

  lemma UnmapUserPte(s: Space, d: nat, page: nat, g: nat, t': nat, j: nat)
    requires Inv(s) && g in s.owner && s.owner[g] == UserPage(d, page) && UserMapped(s, d, page, g) && UserFrame(s, g)
    requires Geometry(UnmapUser(s, d, page, g))
    ensures PteOk(UnmapUser(s, d, page, g), t', j)
  {
    var t := TableFrame(s, d, page);
    assert PteOk(s, t', j);
    if t' in s.owner && s.owner[t'] == Table(d, TableIndex(page)) {
      assert FrameOk(s, t') && FrameOk(s, t);
    }
  }

  lemma UnmapUserKeepsInv(s: Space, d: nat, page: nat, g: nat)
    requires Inv(s) && g in s.owner && s.owner[g] == UserPage(d, page)
    ensures UserMapped(s, d, page, g) && UserFrame(s, g) && Inv(UnmapUser(s, d, page, g))
  {
    UserPageMapped(s, d, page, g);
    var r := UnmapUser(s, d, page, g);
    var t := TableFrame(s, d, page);
    var w := Unmapped(Entry(g));
    OwnedFrames(s, t);
    assert Geometry(r);
    WordKeepsKernelDir(s, r, t, SlotIndex(page), w);
    forall f ensures FrameOk(r, f) { UnmapUserFrame(s, d, page, g, f); }
    forall t', j ensures PteOk(r, t', j) { UnmapUserPte(s, d, page, g, t', j); }
    forall d' ensures DirOk(r, d') { assert DirOk(s, d'); if d' in s.uVaddr { WordKeepsDirs(s, r, t, SlotIndex(page), w, d'); } }
    forall d', i ensures PdeOk(r, d', i) { assert PdeOk(s, d', i); if d' in s.uVaddr { WordKeepsDirs(s, r, t, SlotIndex(page), w, d'); } }
    forall p ensures KernelPteOk(r, p) { assert KernelPteOk(s, p); }
  }

  // ---------- Mapping and unmapping a page of the kernel heap ----------

  function KernelStore(s: Space, page: nat, w: nat): seq<seq<nat>>
    requires Geometry(s) && KERNEL_HEAP <= page < 1023 * ENTRIES
  {
    SetWord(s.mem, KernelTable(TableIndex(page)), SlotIndex(page), w)
  }

  function MapKernel(s: Space, page: nat, g: nat): Space
    requires Geometry(s) && KERNEL_HEAP <= page < 1023 * ENTRIES && KernelFrame(s, g)
  {
    s.(mem := KernelStore(s, page, Entry(g)), kPool := s.kPool[g - s.kStart := true], owner := s.owner[g := KernelPage(page)])
  }

  function UnmapKernel(s: Space, page: nat, g: nat): Space
    requires Geometry(s) && KERNEL_HEAP <= page < 1023 * ENTRIES && KernelFrame(s, g)
  {
    s.(mem := KernelStore(s, page, Unmapped(Entry(g))), kPool := s.kPool[g - s.kStart := false], owner := s.owner - {g})
  }

  ghost predicate CanMapKernel(s: Space, page: nat, g: nat)
    requires Geometry(s)
  {
    && KERNEL_HEAP <= page < KERNEL_HEAP + |s.kVaddr| && s.kVaddr[page - KERNEL_HEAP]
    && !Present(KernelPte(s, page))
    && KernelFrame(s, g) && !s.kPool[g - s.kStart]
  }

  /** A store into a kernel page table: only that page's entry changes, and no process sees it. */
  lemma KernelStoreReads(s: Space, r: Space, page: nat, w: nat, p: nat)
    requires Inv(s) && Geometry(r) && KERNEL_HEAP <= page < 1023 * ENTRIES && r.mem == KernelStore(s, page, w)
    ensures KERNEL_HEAP <= p < 1023 * ENTRIES ==> KernelPte(r, p) == if p == page then w else KernelPte(s, p)
    ensures forall t :: t in s.owner ==> t < |s.mem| && r.mem[t] == s.mem[t]
  {
    forall t | t in s.owner
      ensures t < |s.mem| && r.mem[t] == s.mem[t]
    {
      OwnedFrames(s, t);
    }
    if KERNEL_HEAP <= p < 1023 * ENTRIES && TableIndex(p) == TableIndex(page) && SlotIndex(p) == SlotIndex(page) {
      assert p == page;
    }
  }

  lemma MapKernelFrame(s: Space, page: nat, g: nat, f: nat)
    requires Inv(s) && CanMapKernel(s, page, g) && Geometry(MapKernel(s, page, g))
    ensures FrameOk(MapKernel(s, page, g), f)
  {
    var r := MapKernel(s, page, g);
    FreeFrame(s, g);
    TakenFrame(s, r, g, KernelPage(page), f);
    assert FrameOk(s, f);
    if f in s.owner && f != g {
      assert forall t' :: t' in s.owner && s.owner[t'].Table? ==> t' in r.owner && r.owner[t'] == s.owner[t'];
      if s.owner[f].UserPage? {
        OwnedFrames(s, TableFrame(s, s.owner[f].dir, s.owner[f].page));
      }
      WordKeepsFrame(s, r, KernelTable(TableIndex(page)), SlotIndex(page), Entry(g), f);
    }
  }

  lemma MapKernelKeepsInv(s: Space, page: nat, g: nat)
    requires Inv(s) && CanMapKernel(s, page, g)
    ensures Inv(MapKernel(s, page, g))
  {
    var r := MapKernel(s, page, g);
    var F, J := KernelTable(TableIndex(page)), SlotIndex(page);
    FreeFrame(s, g);
    assert Geometry(r);
    WordKeepsKernelDir(s, r, F, J, Entry(g));
    forall f ensures FrameOk(r, f) { MapKernelFrame(s, page, g, f); }
    forall t', j ensures PteOk(r, t', j) { assert PteOk(s, t', j); KernelStoreReads(s, r, page, Entry(g), page); }
    forall d' ensures DirOk(r, d') { assert DirOk(s, d'); if d' in s.uVaddr { WordKeepsDirs(s, r, F, J, Entry(g), d'); } }
    forall d', i ensures PdeOk(r, d', i) { assert PdeOk(s, d', i); if d' in s.uVaddr { WordKeepsDirs(s, r, F, J, Entry(g), d'); } }
    forall p ensures KernelPteOk(r, p) { assert KernelPteOk(s, p); KernelStoreReads(s, r, page, Entry(g), p); }
  }

  lemma UnmapKernelFrame(s: Space, page: nat, g: nat, f: nat)
    requires Inv(s) && g in s.owner && s.owner[g] == KernelPage(page) && KernelMapped(s, page, g) && KernelFrame(s, g)
    requires Geometry(UnmapKernel(s, page, g))
    ensures FrameOk(UnmapKernel(s, page, g), f)
  {
    var r := UnmapKernel(s, page, g);
    FreedFrame(s, r, g, f);
    assert FrameOk(s, f);
    if f in r.owner {
      assert forall t' :: t' in s.owner && s.owner[t'].Table? ==> t' in r.owner && r.owner[t'] == s.owner[t'];
      if s.owner[f].UserPage? {
        OwnedFrames(s, TableFrame(s, s.owner[f].dir, s.owner[f].page));
      }
      if s.owner[f].KernelPage? {
        assert s.owner[f].page != page;
        KernelStoreReads(s, r, page, Unmapped(Entry(g)), s.owner[f].page);
      } else {
        WordKeepsFrame(s, r, KernelTable(TableIndex(page)), SlotIndex(page), Unmapped(Entry(g)), f);
      }
    }
  }

  /** mfree_page on a kernel page; the page directories of processes are never freed. */
  lemma UnmapKernelKeepsInv(s: Space, page: nat, g: nat)
    requires Inv(s) && g in s.owner && s.owner[g] == KernelPage(page) && g !in s.uVaddr
    ensures KernelMapped(s, page, g) && KernelFrame(s, g) && Inv(UnmapKernel(s, page, g))
  {
    OwnedFrames(s, g);
    var r := UnmapKernel(s, page, g);
    var F, J, w := KernelTable(TableIndex(page)), SlotIndex(page), Unmapped(Entry(g));
    assert Geometry(r);
    WordKeepsKernelDir(s, r, F, J, w);
    forall f ensures FrameOk(r, f) { UnmapKernelFrame(s, page, g, f); }
    forall t', j ensures PteOk(r, t', j) { assert PteOk(s, t', j); KernelStoreReads(s, r, page, w, page); }
    forall d' ensures DirOk(r, d') { assert DirOk(s, d'); if d' in s.uVaddr { WordKeepsDirs(s, r, F, J, w, d'); } }
    forall d', i ensures PdeOk(r, d', i) { assert PdeOk(s, d', i); if d' in s.uVaddr { WordKeepsDirs(s, r, F, J, w, d'); } }
    forall p ensures KernelPteOk(r, p) { UnmapKernelPte(s, page, g, p); }
  }

  lemma UnmapKernelPte(s: Space, page: nat, g: nat, p: nat)
    requires Inv(s) && g in s.owner && s.owner[g] == KernelPage(page) && KernelMapped(s, page, g) && KernelFrame(s, g)
    requires Geometry(UnmapKernel(s, page, g))
    ensures KernelPteOk(UnmapKernel(s, page, g), p)
  {
    assert KernelPteOk(s, p);
    KernelStoreReads(s, UnmapKernel(s, page, g), page, Unmapped(Entry(g)), p);
  }

  // ---------- A new page table ----------

  function Zeros(n: nat): (r: seq<nat>)
    ensures |r| == n && forall i :: 0 <= i < n ==> r[i] == 0
  {
    seq(n, _ => 0)
  }

  /** The other branch of page_table_add: frame f is cleared and becomes page table i of process d. */
  function NewTable(s: Space, d: nat, i: nat, f: nat): Space
    requires Frames(s.mem) && d < |s.mem| && i < ENTRIES && f < |s.mem| && KernelFrame(s, f)
  {
    s.(mem := SetWord(s.mem, d, i, Entry(f))[f := Zeros(ENTRIES)], kPool := s.kPool[f - s.kStart := true],
       owner := s.owner[f := Table(d, i)])
  }

  ghost predicate CanAddTable(s: Space, d: nat, i: nat, f: nat)
    requires Geometry(s)
  {
    && d in s.uVaddr && d < |s.mem| && i < KERNEL_PDE && !Present(s.mem[d][i])
    && KernelFrame(s, f) && !s.kPool[f - s.kStart]
  }

  lemma NewTableGeometry(s: Space, d: nat, i: nat, f: nat)
    requires Inv(s) && CanAddTable(s, d, i, f)
    ensures Geometry(NewTable(s, d, i, f)) && d != f && f !in s.owner && f !in s.uVaddr
    ensures forall x :: 0 <= x < |s.mem| && x != d && x != f ==> NewTable(s, d, i, f).mem[x] == s.mem[x]
    ensures NewTable(s, d, i, f).mem[d] == s.mem[d][i := Entry(f)] && NewTable(s, d, i, f).mem[f] == Zeros(ENTRIES)
  {
    FreeFrame(s, f);
  }

  lemma NewTableFrame(s: Space, d: nat, i: nat, f: nat, x: nat)
    requires Inv(s) && CanAddTable(s, d, i, f) && Geometry(NewTable(s, d, i, f))
    ensures FrameOk(NewTable(s, d, i, f), x)
  {
    var r := NewTable(s, d, i, f);
    NewTableGeometry(s, d, i, f);
    TakenFrame(s, r, f, Table(d, i), x);
    assert FrameOk(s, x);
    if x in s.owner && x != f {
      match s.owner[x]
      case KernelPage(page) =>
        DirFrame(s, d);
      case Table(d', i') =>
        DirFrame(s, d');
      case UserPage(d', page) =>
        DirFrame(s, d');
        OwnedFrames(s, TableFrame(s, d', page));
        DirFrame(s, d);
    }
  }

  lemma NewTableKeepsInv(s: Space, d: nat, i: nat, f: nat)
    requires Inv(s) && CanAddTable(s, d, i, f)
    ensures Inv(NewTable(s, d, i, f))
  {
    var r := NewTable(s, d, i, f);
    NewTableGeometry(s, d, i, f);
    DirFrame(s, d);
    assert KernelHalf(r, KERNEL_DIR);
    forall x ensures FrameOk(r, x) { NewTableFrame(s, d, i, f, x); }
    forall t, j ensures PteOk(r, t, j) { assert PteOk(s, t, j); }
    forall d' ensures DirOk(r, d') { assert DirOk(s, d'); }
    forall d', i' ensures PdeOk(r, d', i') { assert PdeOk(s, d', i') && DirOk(s, d'); }
    forall p ensures KernelPteOk(r, p) { assert KernelPteOk(s, p); }
  }

  // ---------- A new page directory ----------

  /** create_page_dir on a zeroed kernel page in frame g, and the process's bitmap: the kernel half of
      the directory in use is copied, and the last entry points to g itself. */
  function NewDirectory(s: Space, cr3: nat, g: nat, bits: seq<bool>): Space
    requires Frames(s.mem) && cr3 < |s.mem| && g < |s.mem|
  {
    var dir: seq<nat> := (Zeros(KERNEL_PDE) + s.mem[cr3][KERNEL_PDE..])[1023 := Entry(g)];
    s.(mem := s.mem[g := dir], uVaddr := s.uVaddr[g := bits])
  }

  ghost predicate CanAddDirectory(s: Space, cr3: nat, g: nat, bits: seq<bool>)
    requires Geometry(s)
  {
    && (cr3 == KERNEL_DIR || cr3 in s.uVaddr)
    && g in s.owner && s.owner[g].KernelPage? && g !in s.uVaddr && |bits| == USER_PAGES
  }

  lemma NewDirectoryMemory(s: Space, cr3: nat, g: nat, bits: seq<bool>)
    requires Inv(s) && CanAddDirectory(s, cr3, g, bits)
    ensures KERNEL_DIR + 256 <= g < |s.mem| && cr3 < |s.mem| && Geometry(NewDirectory(s, cr3, g, bits))
    ensures KernelHalf(NewDirectory(s, cr3, g, bits), g)
    ensures forall i :: 0 <= i < KERNEL_PDE ==> NewDirectory(s, cr3, g, bits).mem[g][i] == 0
  {
    OwnedFrames(s, g);
    if cr3 in s.uVaddr {
      DirFrame(s, cr3);
    }
  }

  lemma NewDirectoryFrame(s: Space, cr3: nat, g: nat, bits: seq<bool>, x: nat)
    requires Inv(s) && CanAddDirectory(s, cr3, g, bits) && g < |s.mem| && cr3 < |s.mem|
    requires Geometry(NewDirectory(s, cr3, g, bits))
    ensures FrameOk(NewDirectory(s, cr3, g, bits), x)
  {
    assert FrameOk(s, x);
    if x in s.owner {
      match s.owner[x]
      case KernelPage(page) =>
        OwnedFrames(s, g);
      case Table(d, i) =>
      case UserPage(d, page) =>
    }
  }

  lemma NewDirectoryKeepsInv(s: Space, cr3: nat, g: nat, bits: seq<bool>)
    requires Inv(s) && CanAddDirectory(s, cr3, g, bits)
    ensures g < |s.mem| && cr3 < |s.mem| && Inv(NewDirectory(s, cr3, g, bits))
  {
    NewDirectoryMemory(s, cr3, g, bits);
    var r := NewDirectory(s, cr3, g, bits);
    assert KernelHalf(r, KERNEL_DIR);
    forall x ensures FrameOk(r, x) { NewDirectoryFrame(s, cr3, g, bits, x); }
    forall t, j ensures PteOk(r, t, j) { assert PteOk(s, t, j); }
    forall d ensures DirOk(r, d) { assert DirOk(s, d); }
    forall d, i ensures PdeOk(r, d, i) { assert PdeOk(s, d, i); }
    forall p ensures KernelPteOk(r, p) { assert KernelPteOk(s, p); }
  }

  // ---------- Bitmaps and page contents ----------

  /** The bitmaps of virtual addresses change, but stay set at every mapped page. */
  lemma KernelBitsKeepInv(s: Space, bits: seq<bool>)
    requires Inv(s) && |bits| == |s.kVaddr|
    requires forall f :: f in s.owner && s.owner[f].KernelPage? && KERNEL_HEAP <= s.owner[f].page < KERNEL_HEAP + |bits| ==>
               bits[s.owner[f].page - KERNEL_HEAP]
    ensures Inv(s.(kVaddr := bits))
  {
    var r := s.(kVaddr := bits);
    assert KernelHalf(r, KERNEL_DIR);
    forall f ensures FrameOk(r, f) { assert FrameOk(s, f); }
    forall t, j ensures PteOk(r, t, j) { assert PteOk(s, t, j); }
    forall d ensures DirOk(r, d) { assert DirOk(s, d); }
    forall d, i ensures PdeOk(r, d, i) { assert PdeOk(s, d, i); }
    forall p ensures KernelPteOk(r, p) { assert KernelPteOk(s, p); }
  }

  lemma UserBitsKeepInv(s: Space, d: nat, bits: seq<bool>)
    requires Inv(s) && d in s.uVaddr && |bits| == USER_PAGES
    requires forall f :: f in s.owner && s.owner[f].UserPage? && s.owner[f].dir == d && USER_BASE <= s.owner[f].page < USER_BASE + USER_PAGES ==>
               bits[s.owner[f].page - USER_BASE]
    ensures Inv(s.(uVaddr := s.uVaddr[d := bits]))
  {
    var r := s.(uVaddr := s.uVaddr[d := bits]);
    assert KernelHalf(r, KERNEL_DIR);
    forall f ensures FrameOk(r, f) { assert FrameOk(s, f); }
    forall t, j ensures PteOk(r, t, j) { assert PteOk(s, t, j); }
    forall d' ensures DirOk(r, d') { assert DirOk(s, d'); }
    forall d', i ensures PdeOk(r, d', i) { assert PdeOk(s, d', i); }
    forall p ensures KernelPteOk(r, p) { assert KernelPteOk(s, p); }
  }

  /** A store into a page that is neither a page table nor a page directory. */
  lemma DataKeepsInv(s: Space, g: nat, data: seq<nat>)
    requires Inv(s) && g in s.owner && !s.owner[g].Table? && g !in s.uVaddr && |data| == ENTRIES
    ensures g < |s.mem| && Inv(s.(mem := s.mem[g := data]))
  {
    OwnedFrames(s, g);
    var r := s.(mem := s.mem[g := data]);
    assert KernelHalf(r, KERNEL_DIR);
    forall f ensures FrameOk(r, f) { assert FrameOk(s, f); }
    forall t, j ensures PteOk(r, t, j) { assert PteOk(s, t, j); }
    forall d ensures DirOk(r, d) { assert DirOk(s, d); }
    forall d, i ensures PdeOk(r, d, i) { assert PdeOk(s, d, i); }
    forall p ensures KernelPteOk(r, p) { assert KernelPteOk(s, p); }
  }
}
