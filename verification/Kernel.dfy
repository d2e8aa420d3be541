/** The kernel's page allocator and user paging, as it updates its global variables and physical memory. */
module KernelPaging {
  import opened Addressing
  import opened PageTables
  import opened PageInstall
  import opened PageView
  import opened PageLookup
  import opened UserAddresses
  import opened Regions

  /** A kernel virtual pointer to a physical frame, and back, through the direct map at VIRT_BASE. */
  function Ptr(frame: nat): nat { VIRT_BASE + frame * PAGE_SIZE }
  function FrameAt(p: nat): nat { if p < VIRT_BASE then 0 else (p - VIRT_BASE) / PAGE_SIZE }

  lemma Pointers(w: nat)
    ensures RoundDown(w + VIRT_BASE) == Ptr(w / PAGE_SIZE)
    ensures FrameAt(Ptr(w / PAGE_SIZE)) == w / PAGE_SIZE
  {
  }

  class Kernel {
    var mem: Memory
    var pdesc: nat          // next page of the boot-time list
    var physPdesc: nat      // physical address of the next page, once paging is on
    var virtToPhyFlag: bool
    var pml4Shared: nat     // pointer to the current PML4 table
    var usrPhysAddr: nat    // next user frame
    var userAddr: nat       // next user virtual address
    var pmlSameCtxt: nat
    var difCtxt: bool

    /** The PML4 entries whose tables form a tree. */
    ghost var slots: set<nat>

    /** The globals as they are initialised, over some physical memory. */
    constructor (mem: Memory)
      ensures this.mem == mem && !virtToPhyFlag && usrPhysAddr == START_PADDR_FOR_USRS
      ensures userAddr == START_VADDR_FOR_USRS && pmlSameCtxt == 0 && difCtxt
    {
      this.mem, pdesc, physPdesc, virtToPhyFlag, pml4Shared := mem, 0, 0, false, 0;
      usrPhysAddr, userAddr, pmlSameCtxt, difCtxt := START_PADDR_FOR_USRS, START_VADDR_FOR_USRS, 0, true;
      slots := {};
    }

    /** Physical address of the next page to hand out. */
    ghost function Cursor(): nat
      reads `pdesc, `physPdesc, `virtToPhyFlag
    {
      if virtToPhyFlag then physPdesc else pdesc
    }

    ghost function Limit(): nat
      reads `pdesc, `physPdesc, `virtToPhyFlag
    {
      Cursor() / PAGE_SIZE
    }

    function Root(): nat
      reads `pml4Shared
    {
      FrameAt(pml4Shared)
    }

    /** Memory reaches past the user frames, and the cursor is at a page of it or at its end. */
    ghost predicate ValidAllocator()
      reads `mem, `pdesc, `physPdesc, `virtToPhyFlag
    {
      && ValidMemory(mem) && END_PADDR_FOR_USRS / PAGE_SIZE <= |mem|
      && Cursor() % PAGE_SIZE == 0 && Limit() <= |mem|
    }

    /** Paging is on. */
    ghost predicate Paging()
      reads `mem, `pdesc, `physPdesc, `virtToPhyFlag, `pml4Shared, `usrPhysAddr
    {
      ValidAllocator() && pml4Shared == Ptr(Root()) && Root() < |mem| && ValidUserAddress(usrPhysAddr)
    }

    /** The paging invariant: the tables below `slots` form a tree below the allocator's cursor,
        and that has not reached the user frames. */
    ghost predicate Valid()
      reads `mem, `pdesc, `physPdesc, `virtToPhyFlag, `pml4Shared, `usrPhysAddr, `slots
    {
      Paging() && Limit() <= FIRST_USER_FRAME && Tree(mem, Root(), Limit(), slots)
    }

    // ---- Allocation

    /** Hands out the page at the cursor, zeroed. */
    method PageAlloc() returns (head: nat)
      requires ValidAllocator() && Limit() < |mem|
      modifies `mem, `pdesc, `physPdesc, `virtToPhyFlag
      ensures ValidAllocator() && virtToPhyFlag
      ensures head == Ptr(old(Limit())) && FrameAt(head) == old(Limit()) && Limit() == old(Limit()) + 1
      ensures mem == old(mem)[old(Limit()) := ZeroTable()]
    {
      if !virtToPhyFlag {
        physPdesc := pdesc;
        virtToPhyFlag := true;
      }
      pdesc := physPdesc + VIRT_BASE;
      head := pdesc;
      pdesc := physPdesc + VIRT_BASE + PAGE_SIZE;
      physPdesc := physPdesc + PAGE_SIZE;
      mem := mem[FrameAt(head) := ZeroTable()];
    }

    /** Hands out as many zeroed pages in a row as `sz` bytes need. */
    method Kmalloc(sz: nat) returns (head: nat)
      requires ValidAllocator() && 0 < sz && Limit() + PagesFor(sz) <= |mem|
      modifies `mem, `pdesc, `physPdesc, `virtToPhyFlag
      ensures ValidAllocator() && head == Ptr(old(Limit())) && Limit() == old(Limit()) + PagesFor(sz)
      ensures |mem| == old(|mem|) && forall f | 0 <= f < |mem| ::
                mem[f] == if old(Limit()) <= f < Limit() then ZeroTable() else old(mem)[f]
      ensures virtToPhyFlag
      ensures old(Valid()) && Limit() <= FIRST_USER_FRAME ==> Valid() && SameWalks(old(mem), mem, Root())
    {
      var pages := sz / PAGE_SIZE;
      var modulo := sz % PAGE_SIZE;
      if modulo > 0 {
        pages := pages + 1;
      }
      head := PageAlloc();
      pages := pages - 1;
      while pages > 0
        invariant 0 <= pages && ValidAllocator() && Limit() + pages == old(Limit()) + PagesFor(sz)
        invariant old(Limit()) < Limit() && |mem| == old(|mem|) && virtToPhyFlag
        invariant forall f | 0 <= f < |mem| ::
                    mem[f] == if old(Limit()) <= f < Limit() then ZeroTable() else old(mem)[f]
      {
        pages := pages - 1;
        var trav := PageAlloc();
      }
      if old(Valid()) { TreeBelow(old(mem), mem, Root(), old(Limit()), Limit(), slots); }
    }

    /** get_pdp, get_pd and get_pt, rounded down by their caller: the next table down,
        taken from the entry or freshly allocated. */
    method NextTable(table: nat, offset: nat, ghost l: Lookup) returns (page: nat)
      requires ValidAllocator() && l.ts != [] && l == Lookup(mem, Limit(), l.ts) && table == Ptr(l.ts[|l.ts| - 1])
      requires Down(l, offset).limit <= |mem|
      modifies `mem, `pdesc, `physPdesc, `virtToPhyFlag
      ensures ValidAllocator() && page == Ptr(FrameAt(page))
      ensures Down(l, offset) == Lookup(mem, Limit(), l.ts + [FrameAt(page)])
    {
      var t := FrameAt(table);
      if Read(mem, t, offset) != 0 {
        page := RoundDown(Read(mem, t, offset) + VIRT_BASE);
        Pointers(Read(mem, t, offset));
      } else {
        var newPage := PageAlloc();
        page := RoundDown(newPage);
        assert page == newPage;
      }
    }

    /** The three look-ups with which every branch of memmap starts. */
    method TablesFor(addr: nat) returns (pdp: nat, pd: nat, ptu: nat)
      requires Paging() && InRange(mem, Root(), Limit(), addr)
      modifies `mem, `pdesc, `physPdesc, `virtToPhyFlag
      ensures Paging() && pdp == Ptr(FrameAt(pdp)) && pd == Ptr(FrameAt(pd)) && ptu == Ptr(FrameAt(ptu))
      ensures old(Tables(mem, Root(), Limit(), PathOf(addr)))
           == Lookup(mem, Limit(), [Root(), FrameAt(pdp), FrameAt(pd), FrameAt(ptu)])
    {
      ghost var l0, path := Lookup(mem, Limit(), [Root()]), PathOf(addr);
      ghost var l1 := Down(l0, path[0]);
      ghost var l2 := Down(l1, path[1]);
      ThreeSteps(mem, Root(), Limit(), path);
      pdp := NextTable(pml4Shared, Pml4Offset(addr), l0);
      pd := NextTable(pdp, PdpOffset(addr), l1);
      ptu := NextTable(pd, PdOffset(addr), l2);
    }

    /** The tables at these pointers, all handed out, are or can become the tables on `path`. */
    ghost predicate Ready(path: Path, pdp: nat, pd: nat, ptu: nat)
      reads `mem, `pdesc, `physPdesc, `virtToPhyFlag, `pml4Shared, `usrPhysAddr, `slots
    {
      && pdp == Ptr(FrameAt(pdp)) && pd == Ptr(FrameAt(pd)) && ptu == Ptr(FrameAt(ptu))
      && OnPath(Lookup(mem, Limit(), [Root(), FrameAt(pdp), FrameAt(pd), FrameAt(ptu)]), Root(), slots, path)
    }

    // ---- User frames

    method GetUserPhysAddr() returns (addr: nat)
      requires ValidUserAddress(usrPhysAddr)
      modifies `usrPhysAddr
      ensures ValidUserAddress(usrPhysAddr)
      ensures addr == old(usrPhysAddr) && usrPhysAddr == NextFrameAddress(old(usrPhysAddr))
    {
      addr := usrPhysAddr;
      if usrPhysAddr + PAGE_SIZE < 0x600_0000 {
        usrPhysAddr := usrPhysAddr + PAGE_SIZE;
      } else {
        usrPhysAddr := START_PADDR_FOR_USRS;
      }
    }

    /** The four table writes of add_user_page. */
    method WriteEntries(virt: nat, phys: nat, pdp: nat, pd: nat, ptu: nat, perm: nat)
      requires ValidMemory(mem) && phys % PAGE_SIZE == 0
      requires pdp == Ptr(FrameAt(pdp)) && pd == Ptr(FrameAt(pd)) && ptu == Ptr(FrameAt(ptu))
      requires Root() < |mem| && FrameAt(pdp) < |mem| && FrameAt(pd) < |mem| && FrameAt(ptu) < |mem|
      requires phys / PAGE_SIZE < |mem|
      modifies `mem
      ensures mem == Install(old(mem), PathOf(virt),
                             [Root(), FrameAt(pdp), FrameAt(pd), FrameAt(ptu), phys / PAGE_SIZE], perm)
    {
      mem := Store(mem, FrameAt(ptu), PtOffset(virt), phys + perm);
      mem := Store(mem, FrameAt(pd), PdOffset(virt), (ptu - VIRT_BASE) + perm);
      mem := Store(mem, FrameAt(pdp), PdpOffset(virt), (pd - VIRT_BASE) + perm);
      mem := Store(mem, FrameAt(pml4Shared), Pml4Offset(virt), (pdp - VIRT_BASE) + perm);
    }

    /** Maps the page of `virt` to the next user frame through the given tables. */
    method AddUserPage(virt: nat, pdp: nat, pd: nat, ptu: nat, perm: nat)
      requires Valid() && IsPerm(perm) && Ready(PathOf(virt), pdp, pd, ptu)
      modifies `mem, `usrPhysAddr
      ensures Valid() && Ready(PathOf(virt), pdp, pd, ptu) && Missing(mem, Root(), PathOf(virt)) == 0
      ensures usrPhysAddr == NextFrameAddress(old(usrPhysAddr))
      ensures PagesMapped(old(mem), mem, Root(), PageOf(virt), 1, old(usrPhysAddr), perm)
    {
      ghost var ns := [Root(), FrameAt(pdp), FrameAt(pd), FrameAt(ptu), usrPhysAddr / PAGE_SIZE];
      assert ns[..4] == [Root(), FrameAt(pdp), FrameAt(pd), FrameAt(ptu)];
      InstalledPage(mem, Root(), virt, ns, perm, Limit(), slots, usrPhysAddr);
      var localPhysAddr := GetUserPhysAddr();
      WriteEntries(virt, localPhysAddr, pdp, pd, ptu, perm);
    }

    /** Pages of one page table need the same tables. */
    lemma ReadySibling(path: Path, path': Path, pdp: nat, pd: nat, ptu: nat)
      requires Ready(path, pdp, pd, ptu) && |path'| == 4 && path'[..3] == path[..3] && path'[3] < TABLE_SIZE
      ensures Ready(path', pdp, pd, ptu) && Missing(mem, Root(), path') == Missing(mem, Root(), path)
    {
      LocatedSibling(mem, Root(), path, path', [Root(), FrameAt(pdp), FrameAt(pd), FrameAt(ptu)]);
      MissingSibling(mem, Root(), path, path');
      assert path'[0] == path'[..3][0] == path[0];
    }

    /** The loop of memmap: maps `count` consecutive pages of one page table, starting with the page of `va`. */
    method AddPages(va: nat, count: nat, pdp: nat, pd: nat, ptu: nat, perm: nat)
      requires Valid() && IsPerm(perm) && Ready(PathOf(va), pdp, pd, ptu) && PtOffset(va) + count <= TABLE_SIZE
      modifies `mem, `usrPhysAddr
      ensures Valid() && usrPhysAddr == UserAddress(old(usrPhysAddr), count)
      ensures PagesMapped(old(mem), mem, Root(), PageOf(va), count, old(usrPhysAddr), perm)
      ensures count > 0 ==> Missing(mem, Root(), PathOf(va)) == 0
    {
      var i, addr, pages := 0, va, count;
      UserFrames(usrPhysAddr, 0);
      while pages > 0
        invariant 0 <= pages && 0 <= i && i + pages == count && addr == va + i * PAGE_SIZE
        invariant Valid() && Ready(PathOf(va), pdp, pd, ptu)
        invariant usrPhysAddr == UserAddress(old(usrPhysAddr), i)
        invariant PagesMapped(old(mem), mem, Root(), PageOf(va), i, old(usrPhysAddr), perm)
        invariant i > 0 ==> Missing(mem, Root(), PathOf(va)) == 0
      {
        ghost var m1, start := mem, usrPhysAddr;
        SameTable(va, i, addr);
        ReadySibling(PathOf(va), PathOf(addr), pdp, pd, ptu);
        AddUserPage(addr, pdp, pd, ptu, perm);
        ReadySibling(PathOf(addr), PathOf(va), pdp, pd, ptu);
        OnePageMore(old(mem), m1, mem, Root(), PageOf(va), i, old(usrPhysAddr), perm, PageOf(addr), start);
        UserFrames(old(usrPhysAddr), i + 1);
        pages, i, addr := pages - 1, i + 1, addr + PAGE_SIZE;
      }
      assert i == count;
    }

    /** What paging requests change. */
    ghost function View(): Pager
      reads `mem, `pdesc, `physPdesc, `virtToPhyFlag, `usrPhysAddr
    {
      Pager(mem, Limit(), usrPhysAddr)
    }

    /** A one-page request: the tables are looked up for `addr`, the page of `va` is mapped. */
    method MapOne(addr: nat, va: nat)
      requires Paging() && Servable(View(), Root(), addr)
      modifies `mem, `pdesc, `physPdesc, `virtToPhyFlag, `usrPhysAddr
      ensures Paging() && View() == Request(old(View()), Root(), addr, va)
    {
      ghost var l := Tables(mem, Root(), Limit(), PathOf(addr));
      var pdp, pd, ptu := TablesFor(addr);
      var localPhysAddr := GetUserPhysAddr();
      assert forall k | 0 <= k < 4 :: l.ts[k] < |mem|;
      assert l.ts[1] == FrameAt(pdp) && l.ts[2] == FrameAt(pd) && l.ts[3] == FrameAt(ptu);
      WriteEntries(va, localPhysAddr, pdp, pd, ptu, USR_PERM_BITS);
      assert l.ts + [localPhysAddr / PAGE_SIZE]
          == [Root(), FrameAt(pdp), FrameAt(pd), FrameAt(ptu), localPhysAddr / PAGE_SIZE];
    }

    /** There is room for the tables that `addr` lacks, below a PML4 entry of the tree. */
    ghost predicate HasRoom(addr: nat)
      reads `mem, `pdesc, `physPdesc, `virtToPhyFlag, `pml4Shared, `slots
    {
      Pml4Offset(addr) in slots && Limit() + Missing(mem, Root(), PathOf(addr)) <= FIRST_USER_FRAME
    }

    /** memmap(addr, length, prot, ACCESSED_NOT_PRESENT) */
    method MemmapNotPresent(addr: nat, length: nat, prot: nat) returns (last: nat)
      requires Valid() && IsPerm(prot) && Pml4Offset(addr) in slots && PtOffset(addr) + PagesFor(length) <= TABLE_SIZE
      requires Limit() + Missing(mem, Root(), PathOf(addr)) <= FIRST_USER_FRAME
      modifies `mem, `pdesc, `physPdesc, `virtToPhyFlag, `usrPhysAddr
      ensures Valid() && usrPhysAddr == UserAddress(old(usrPhysAddr), PagesFor(length))
      ensures PagesMapped(old(mem), mem, Root(), PageOf(addr), PagesFor(length), old(usrPhysAddr), prot)
      ensures Limit() == old(Limit()) + old(Missing(mem, Root(), PathOf(addr)))
      ensures length > 0 ==> Missing(mem, Root(), PathOf(addr)) == 0
      ensures last == addr + (if length > 0 then PagesFor(length) - 1 else 0) * PAGE_SIZE
    {
      var va := RoundDown(addr);
      assert va / PAGE_SIZE == addr / PAGE_SIZE;
      TablesOnPath(mem, Root(), Limit(), slots, PathOf(addr));
      var pdp, pd, ptu := TablesFor(addr);
      ghost var m1 := mem;
      AddPages(va, PagesFor(length), pdp, pd, ptu, prot);
      MappedAfterSame(old(mem), m1, mem, Root(), PageOf(va), PagesFor(length), old(usrPhysAddr), prot);
      last := if length > 0 then addr + (PagesFor(length) - 1) * PAGE_SIZE else addr;
    }

    // ---- User virtual addresses

    method GetUserVirtAddr() returns (addr: nat)
      modifies `userAddr
      ensures addr == old(userAddr) && userAddr == NextVirtualAddress(old(userAddr))
    {
      addr := userAddr;
      if userAddr + PAGE_SIZE < PHYSBASE + VIRT_BASE {
        userAddr := userAddr + PAGE_SIZE;
      } else {
        userAddr := START_VADDR_FOR_USRS;
      }
    }

    method IncrementPml() returns (pml: nat)
      modifies `pmlSameCtxt
      ensures pml == pmlSameCtxt == NextPml(old(pmlSameCtxt))
    {
      pmlSameCtxt := pmlSameCtxt + PML_INC;
      if pmlSameCtxt == PML_MAX_INC {
        pmlSameCtxt := 0;
      }
      pml := pmlSameCtxt;
    }

    ghost function VaCursors(): Cursors
      reads `userAddr, `pmlSameCtxt
    {
      Cursors(userAddr, pmlSameCtxt)
    }

    /** The address the next NEW_PAGE request maps. */
    ghost function NewPageTarget(): nat
      reads `userAddr, `pmlSameCtxt, `difCtxt
    {
      if difCtxt then userAddr else userAddr + NextPml(pmlSameCtxt)
    }

    method NewPageAddress() returns (addr: nat)
      modifies `userAddr, `pmlSameCtxt
      ensures addr == old(NewPageTarget()) && userAddr == old(NextVirtualAddress(userAddr))
      ensures pmlSameCtxt == if difCtxt then old(pmlSameCtxt) else old(NextPml(pmlSameCtxt))
    {
      var low := GetUserVirtAddr();
      if !difCtxt {
        var pml := IncrementPml();
        addr := low + pml;
      } else {
        addr := low;
      }
    }

    /** memmap(addr, PAGE_SIZE, USR_PERM_BITS, ACCESSED_NOT_PRESENT), in any state */
    method MemmapOnePage(addr: nat)
      requires Paging() && Servable(View(), Root(), addr)
      modifies `mem, `pdesc, `physPdesc, `virtToPhyFlag, `usrPhysAddr
      ensures Paging() && View() == Request(old(View()), Root(), addr, RoundDown(addr))
    {
      MapOne(addr, RoundDown(addr));
    }

    /** memmap(.., USR_PERM_BITS, SET_COW_RW), in any state: the address given is not used. */
    method MemmapSetCowRw() returns (addr: nat)
      requires Paging() && Servable(View(), Root(), userAddr)
      modifies `mem, `pdesc, `physPdesc, `virtToPhyFlag, `usrPhysAddr, `userAddr
      ensures addr == old(userAddr) && userAddr == old(NextVirtualAddress(userAddr))
      ensures Paging() && View() == Request(old(View()), Root(), addr, RoundDown(addr))
    {
      addr := GetUserVirtAddr();
      MapOne(addr, RoundDown(addr));
    }

    /** memmap(NULL, PAGE_SIZE, USR_PERM_BITS, NEW_PAGE), in any state */
    method MemmapNewPage() returns (addr: nat)
      requires Paging() && Servable(View(), Root(), NewPageTarget())
      modifies `mem, `pdesc, `physPdesc, `virtToPhyFlag, `usrPhysAddr, `userAddr, `pmlSameCtxt
      ensures addr == old(NewPageTarget()) && userAddr == old(NextVirtualAddress(userAddr))
      ensures Paging() && View() == Request(old(View()), Root(), addr, addr)
      ensures pmlSameCtxt == if difCtxt then old(pmlSameCtxt) else old(NextPml(pmlSameCtxt))
    {
      addr := NewPageAddress();
      MapOne(addr, addr);
    }

    /** memmap(NULL, PAGE_SIZE, USR_PERM_BITS, GROWS_DOWN), in any state */
    method MemmapGrowsDown() returns (addr: nat)
      requires Paging() && PAGE_SIZE <= userAddr && Servable(View(), Root(), userAddr)
      modifies `mem, `pdesc, `physPdesc, `virtToPhyFlag, `usrPhysAddr, `userAddr, `pmlSameCtxt
      ensures addr == old(userAddr) && VaCursors() == old(Step(VaCursors(), GrowsDown))
      ensures Paging() && View() == Request(old(View()), Root(), addr, addr - PAGE_SIZE)
    {
      addr := GetUserVirtAddr();
      MapOne(addr, addr - PAGE_SIZE);
    }

    /** NEW_PAGE below a PML4 entry of the tree. */
    method NewPageInTree() returns (addr: nat)
      requires Valid() && HasRoom(NewPageTarget())
      modifies `mem, `pdesc, `physPdesc, `virtToPhyFlag, `usrPhysAddr, `userAddr, `pmlSameCtxt
      ensures Valid() && OneMore(old(View()), View(), Root(), PageOf(addr))
      ensures addr == old(NewPageTarget()) && userAddr == old(NextVirtualAddress(userAddr))
      ensures pmlSameCtxt == if difCtxt then old(pmlSameCtxt) else old(NextPml(pmlSameCtxt))
    {
      RequestInTree(View(), Root(), slots, NewPageTarget(), NewPageTarget());
      addr := MemmapNewPage();
    }

    /** GROWS_DOWN below a PML4 entry of the tree, not at the beginning of a page table. */
    method GrowsDownInTree() returns (addr: nat)
      requires Valid() && HasRoom(userAddr) && PAGE_SIZE <= userAddr && PtOffset(userAddr) > 0
      modifies `mem, `pdesc, `physPdesc, `virtToPhyFlag, `usrPhysAddr, `userAddr, `pmlSameCtxt
      ensures addr == old(userAddr) && VaCursors() == old(Step(VaCursors(), GrowsDown))
      ensures Valid() && OneMore(old(View()), View(), Root(), PageOf(addr - PAGE_SIZE))
    {
      SamePathBefore(userAddr);
      RequestInTree(View(), Root(), slots, userAddr, userAddr - PAGE_SIZE);
      addr := MemmapGrowsDown();
    }

    // ---- Regions

    /** The page count of allocate_regions, through its 32-bit size. */
    method RegionSize(va: nat, len: nat) returns (num: nat)
      requires RegionPages(va, len) < 0x10_0000
      ensures num == RegionPages(va, len)
    {
      var vaStart := RoundDown(va);
      var vaEnd := RoundUp(va + len);
      var sz := (vaEnd - vaStart) % 0x1_0000_0000;
      num := sz / PAGE_SIZE;
      num := num + sz % PAGE_SIZE;
      RegionCount(va, len, sz);
    }

    /** allocate_regions: maps every page that [va, va + len) touches, one memmap call per page. */
    method AllocateRegions(va: nat, len: nat)
      requires Valid() && RegionPages(va, len) <= 0x8_0000 && PageOf(va) + RegionPages(va, len) <= PAGES
      requires forall n | PageOf(va) <= n < PageOf(va) + RegionPages(va, len) :: SlotOfPage(n) in slots
      requires Limit() + TablesSpanned(PageOf(va), RegionPages(va, len)) <= FIRST_USER_FRAME
      modifies `mem, `pdesc, `physPdesc, `virtToPhyFlag, `usrPhysAddr
      ensures Valid() && usrPhysAddr == UserAddress(old(usrPhysAddr), RegionPages(va, len))
      ensures RegionMapped(old(mem), mem, Root(), PageOf(va), RegionPages(va, len), old(usrPhysAddr))
      ensures Limit() <= old(Limit()) + TablesSpanned(PageOf(va), RegionPages(va, len))
    {
      var num := RegionSize(va, len);
      UserFrames(usrPhysAddr, 0);
      ghost var prev: nat := va;
      for i := 0 to num
        invariant Valid() && usrPhysAddr == UserAddress(old(usrPhysAddr), i)
        invariant RegionMapped(old(mem), mem, Root(), PageOf(va), i, old(usrPhysAddr))
        invariant Limit() <= old(Limit()) + TablesSpanned(PageOf(va), i)
        invariant i > 0 ==> prev + PAGE_SIZE == va + i * PAGE_SIZE && Missing(mem, Root(), PathOf(prev)) == 0
      {
        ghost var m1, start := mem, usrPhysAddr;
        var addr := va + i * PAGE_SIZE;
        RegionStep(mem, Root(), va, i, prev, addr);
        TablesSpannedMonotone(PageOf(va), i + 1, num);
        PathDigits(addr);
        assert SlotOfPage(PageOf(addr)) in slots;
        var _ := MemmapNotPresent(addr, PAGE_SIZE, USR_PERM_BITS);
        RegionGrows(old(mem), m1, mem, Root(), PageOf(va), i, old(usrPhysAddr), PageOf(addr), start);
        UserFrames(old(usrPhysAddr), i + 1);
        prev := addr;
      }
    }
  }
}
