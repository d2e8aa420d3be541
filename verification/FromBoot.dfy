/** Whole runs that begin with set_free_list: what user mode sees in the end, and how far stacks may grow down. */
module FromBoot {
  import opened Options
  import opened Addressing
  import opened PageTables
  import opened PageView
  import opened PageLookup
  import opened PageBoundary
  import opened UserAddresses
  import opened KernelPaging
  import opened PagingRuns
  import opened Boot
  import opened BootTree
  import opened BootNormal
  import opened UserView
  import opened BootRuns

  /** Boot has made its tables, and nothing else has happened. */
  ghost predicate JustBooted(k: Kernel)
    reads k
  {
    k.Paging() && Booted(k.mem, k.Root()) && k.Root() + 52 <= k.Limit() <= FIRST_USER_FRAME
  }

  /** What set_free_list needs. */
  ghost predicate Bootable(k: Kernel, pageAddr: nat)
    reads k
  {
    && ValidMemory(k.mem) && END_PADDR_FOR_USRS / PAGE_SIZE <= |k.mem| && !k.virtToPhyFlag
    && ValidUserAddress(k.usrPhysAddr) && pageAddr % PAGE_SIZE == 0 && 0 < pageAddr
    && pageAddr / PAGE_SIZE + NUMBER_OF_PAGES <= |k.mem| && pageAddr / PAGE_SIZE + 99 <= FIRST_USER_FRAME
    && Clear(k.mem, pageAddr / PAGE_SIZE)
  }

  /** In every run from boot, user mode sees a page if and only if it was asked for, in the frame it was given last, and
      the direct map stays exact. */
  method RunFromBoot(k: Kernel, pageAddr: nat, os: seq<Order>)
    requires Bootable(k, pageAddr) && AllFit(DeskOf(k), os)
    requires pageAddr / PAGE_SIZE + 99 + 3 * |AllPages(DeskOf(k), os)| <= FIRST_USER_FRAME
    modifies k
    ensures k.Paging() && Running(k.View(), k.Root()) && DirectMapped(k.mem, k.Root())
    ensures forall n | 0 <= n < PAGES ::
              UserPage(k.mem, k.Root(), n) == LastFrame(AllPages(old(DeskOf(k)), os), old(k.usrPhysAddr), n, None)
    ensures forall n | 0 <= n < PAGES :: UserPage(k.mem, k.Root(), n).Some? <==> n in AllPages(old(DeskOf(k)), os)
  {
    SetFreeList(k, pageAddr);
    RunBooted(k, os);
  }

  method RunBooted(k: Kernel, os: seq<Order>)
    requires JustBooted(k) && AllFit(DeskOf(k), os)
    requires k.Limit() + 3 * |AllPages(DeskOf(k), os)| <= FIRST_USER_FRAME
    modifies k`mem, k`pdesc, k`physPdesc, k`virtToPhyFlag, k`usrPhysAddr, k`userAddr, k`pmlSameCtxt, k`difCtxt
    ensures k.Paging() && Running(k.View(), k.Root()) && DirectMapped(k.mem, k.Root())
    ensures forall n | 0 <= n < PAGES ::
              UserPage(k.mem, k.Root(), n) == LastFrame(AllPages(old(DeskOf(k)), os), old(k.usrPhysAddr), n, None)
    ensures forall n | 0 <= n < PAGES :: UserPage(k.mem, k.Root(), n).Some? <==> n in AllPages(old(DeskOf(k)), os)
  {
    ghost var s, pages := k.View(), AllPages(DeskOf(k), os);
    BootRunning(s, k.Root());
    ServeOrders(k, os);
    KernelDirectMap(k.mem, k.Root());
    forall n | 0 <= n < PAGES
      ensures UserPage(k.mem, k.Root(), n) == LastFrame(pages, s.start, n, None)
      ensures UserPage(k.mem, k.Root(), n).Some? <==> n in pages
    {
      UserSeesTree(s, k.Root(), n);
      LastFrameIn(pages, s.start, n);
    }
  }

  lemma KernelDirectMap(mem: Memory, b: nat)
    requires KernelKept(mem, b) && b + 52 <= 0x100_0000_0000
    ensures DirectMapped(mem, b)
  {
    forall a: nat | a < 49 * REGION ensures Walk(mem, b, VIRT_BASE + a) == Page(a / PAGE_SIZE, true, false) {
      DirectMap(mem, b, a);
    }
  }

  // ---- NEW_PAGE and GROWS_DOWN from boot

  function OrderOf(call: Call): Order { if call.NewPage? then NewHeap else GrowStack }

  function Orders(calls: seq<Call>): (os: seq<Order>)
    ensures |os| == |calls|
  {
    seq(|calls|, i requires 0 <= i < |calls| => OrderOf(calls[i]))
  }

  /** An address that user_addr passes from START_VADDR_FOR_USRS on, with an offset of whole PML4 entries. */
  lemma LowAllowed(low: nat, slot: nat)
    requires START_VADDR_FOR_USRS <= low < 0x7f_8000_0000 && low % PAGE_SIZE == 0 && slot < 511
    ensures Allowed(PathOf(low + slot * PML_INC))
  {
    SlotArithmetic(low, slot);
    var n := low / PAGE_SIZE;
    Euclid(low + slot * PML_INC, PAGE_SIZE, n + slot * 0x800_0000, 0);
    Euclid(n + slot * 0x800_0000, 512, n / 512 + slot * 0x4_0000, n % 512);
    Euclid(n / 512 + slot * 0x4_0000, 512, n / 512 / 512 + slot * 512, n / 512 % 512);
    Euclid(n / 512 / 512 + slot * 512, 512, slot, n / 512 / 512);
  }

  /** Calls from the first address on, none of them a GROWS_DOWN at the beginning of a page table. */
  ghost predicate EarlyCalls(c: Cursors, calls: seq<Call>) {
    && c == Cursors(START_VADDR_FOR_USRS, 0) && Start(c, 0, |calls|) && |calls| <= FIRST_USER_FRAME
    && (forall i | 0 <= i < |calls| :: calls[i].GrowsDown? ==> PtOffset(START_VADDR_FOR_USRS + i * PAGE_SIZE) > 0)
    && (forall i | 0 <= i < |calls| :: PAGE_SIZE <= After(c, calls[..i]).userAddr)
  }

  /** Where the address cursor stands before call `i`. */
  lemma EarlyAddress(c: Cursors, calls: seq<Call>, i: nat, u: nat)
    requires EarlyCalls(c, calls) && i < |calls| && u == After(c, calls[..i]).userAddr
    ensures u == START_VADDR_FOR_USRS + i * PAGE_SIZE && u % PAGE_SIZE == 0 && u < 0x7f_8000_0000
  {
    BeforeCall(c, 0, calls, i);
  }

  /** Where the tables of call `i` are looked up. */
  lemma CallAllowed(c: Cursors, calls: seq<Call>, i: nat, u: nat)
    requires EarlyCalls(c, calls) && i < |calls| && u == After(c, calls[..i]).userAddr
    ensures PAGE_SIZE <= u && (calls[i].GrowsDown? ==> PtOffset(u) > 0 && Allowed(PathOf(u)))
    ensures calls[i].NewPage? ==> Allowed(PathOf(u + NextPml(After(c, calls[..i]).pml)))
  {
    EarlyAddress(c, calls, i, u);
    if calls[i].NewPage? {
      NewPageTarget(c, calls, i);
      LowAllowed(u, SlotOf(0, calls, i));
    } else {
      assert 0 * PML_INC == 0;
      LowAllowed(u, 0);
    }
  }

  lemma NewPageTarget(c: Cursors, calls: seq<Call>, i: nat)
    requires EarlyCalls(c, calls) && i < |calls| && calls[i].NewPage?
    ensures NextPml(After(c, calls[..i]).pml) == SlotOf(0, calls, i) * PML_INC
  {
    BeforeCall(c, 0, calls, i);
    PageInRun(c, 0, calls, i);
  }

  lemma CallFits(c: Cursors, calls: seq<Call>, i: nat, d: Desk)
    requires EarlyCalls(c, calls) && i < |calls|
    requires d == Desk(After(c, calls[..i]).userAddr, After(c, calls[..i]).pml, false)
    ensures Fits(d, OrderOf(calls[i])) && PagesOf(d, OrderOf(calls[i])) == [RunPages(c, calls)[i]]
    ensures Next(d, OrderOf(calls[i])) == Desk(After(c, calls[..i + 1]).userAddr, After(c, calls[..i + 1]).pml, false)
  {
    CallAllowed(c, calls, i, d.userAddr);
    BeforeCall(c, 0, calls, i);
  }

  lemma {:induction false} OrdersFrom(c: Cursors, calls: seq<Call>, i: nat, d: Desk)
    requires EarlyCalls(c, calls) && i <= |calls|
    requires d == Desk(After(c, calls[..i]).userAddr, After(c, calls[..i]).pml, false)
    ensures AllFit(d, Orders(calls)[i..]) && AllPages(d, Orders(calls)[i..]) == RunPages(c, calls)[i..]
    decreases |calls| - i
  {
    if i < |calls| {
      CallFits(c, calls, i, d);
      var os := Orders(calls)[i..];
      assert os[0] == OrderOf(calls[i]) && os[1..] == Orders(calls)[i + 1..];
      OrdersFrom(c, calls, i + 1, Next(d, os[0]));
    }
  }

  lemma {:induction false} DistinctFrames(pages: seq<nat>, start: nat, k: nat, before: Option<nat>)
    requires DistinctPages(pages) && k < |pages|
    ensures LastFrame(pages, start, pages[k], before) == Some(NthUserFrame(start, k))
  {
    if k < |pages| - 1 {
      DistinctFrames(pages[..|pages| - 1], start, k, before);
    }
  }

  /** Few calls after boot are early calls, and their pages are distinct. */
  lemma FewCalls(c: Cursors, calls: seq<Call>)
    requires c == Cursors(START_VADDR_FOR_USRS, 0) && |calls| <= FIRST_USER_FRAME && NewPages(calls) <= 510
    requires forall i | 0 <= i < |calls| :: calls[i].GrowsDown? ==> PtOffset(START_VADDR_FOR_USRS + i * PAGE_SIZE) > 0
    ensures EarlyCalls(c, calls) && DistinctPages(RunPages(c, calls))
  {
    PagesOfRun(c, 0, calls);
    forall i | 0 <= i < |calls| ensures !Clash(0, calls, i) {
      FewNewPages(calls, i);
    }
  }

  /** init_usr_pcb asks for the first stack and clears `dif_ctxt`; what follows are the calls behind the first. */
  function OrdersAtBoot(calls: seq<Call>): seq<Order>
    requires calls != []
  {
    [GrowStack, ClearDifCtxt] + Orders(calls)[1..]
  }

  lemma CallsAtBoot(d: Desk, calls: seq<Call>)
    requires d.userAddr == START_VADDR_FOR_USRS && d.pml == 0 && EarlyCalls(Cursors(d.userAddr, d.pml), calls)
    requires calls != [] && calls[0].GrowsDown?
    ensures AllFit(d, OrdersAtBoot(calls))
    ensures AllPages(d, OrdersAtBoot(calls)) == RunPages(Cursors(d.userAddr, d.pml), calls)
  {
    var c, d', os := Cursors(d.userAddr, d.pml), d.(dif := false), OrdersAtBoot(calls);
    assert calls[..0] == [] && OrderOf(calls[0]) == GrowStack;
    CallFits(c, calls, 0, d');
    var d1 := Next(d, GrowStack);
    OrdersFrom(c, calls, 1, Next(d1, ClearDifCtxt));
    assert os[1..][0] == ClearDifCtxt && os[1..][1..] == Orders(calls)[1..];
    assert AllPages(d1, os[1..]) == AllPages(Next(d1, ClearDifCtxt), Orders(calls)[1..]);
    assert PagesOf(d, GrowStack) == PagesOf(d', GrowStack) == [RunPages(c, calls)[0]];
  }

  /** From boot, any run that begins as init_usr_pcb does, with at most 510 NEW_PAGE calls, and GROWS_DOWN calls none of
      which is made at the beginning of a page table: user mode sees its pages, each in the frame of its turn, and
      nothing else. */
  method RunCallsFromBoot(k: Kernel, pageAddr: nat, calls: seq<Call>)
    requires Bootable(k, pageAddr) && k.userAddr == START_VADDR_FOR_USRS && k.pmlSameCtxt == 0
    requires pageAddr / PAGE_SIZE + 99 + 3 * |calls| <= FIRST_USER_FRAME && NewPages(calls) <= 510
    requires calls != [] && calls[0].GrowsDown?
    requires forall i | 0 <= i < |calls| :: calls[i].GrowsDown? ==> PtOffset(START_VADDR_FOR_USRS + i * PAGE_SIZE) > 0
    modifies k
    ensures k.Paging() && Running(k.View(), k.Root())
    ensures EarlyCalls(Cursors(START_VADDR_FOR_USRS, 0), calls)
    ensures var pages := RunPages(Cursors(START_VADDR_FOR_USRS, 0), calls);
            && DistinctPages(pages)
            && (forall i | 0 <= i < |calls| ::
                  UserPage(k.mem, k.Root(), pages[i]) == Some(NthUserFrame(old(k.usrPhysAddr), i)))
            && (forall n | 0 <= n < PAGES && n !in pages :: UserPage(k.mem, k.Root(), n) == None)
  {
    ghost var d, start, c := DeskOf(k), k.usrPhysAddr, Cursors(START_VADDR_FOR_USRS, 0);
    FewCalls(c, calls);
    CallsAtBoot(d, calls);
    RunFromBoot(k, pageAddr, OrdersAtBoot(calls));
    ghost var pages := RunPages(c, calls);
    forall i | 0 <= i < |calls| ensures UserPage(k.mem, k.Root(), pages[i]) == Some(NthUserFrame(start, i)) {
      DistinctFrames(pages, start, i, None);
    }
  }

  // ---- Where stacks may grow down

  /** Off the kernel's words exactly `page` has been mapped, and the user's tables are still a tree. */
  ghost predicate OnlyMapped(s: Pager, s': Pager, b: nat, page: nat) {
    && Sound(s', b)
    && forall n | 0 <= n < PAGES && Ordinary(PagePath(n)) ::
         FrameOfPage(s'.mem, b, n) == if n == page then Some(s.start / PAGE_SIZE) else FrameOfPage(s.mem, b, n)
  }

  /** User mode sees no page below `c` but `page`. */
  ghost predicate AloneForUsers(mem: Memory, b: nat, c: Path, page: nat) {
    forall n | 0 <= n < PAGES && n != page && c <= PagePath(n) :: UserPage(mem, b, n) == None
  }

  lemma SameEffect(s: Pager, b: nat, addr: nat, va: nat)
    requires Asked(s, b, addr, va)
    ensures Servable(s, b, addr) && Servable(NormalPager(s, b), b, addr)
    ensures OnlyMapped(s, Request(s, b, addr, va), b, PageOf(va))
       <==> Exact(NormalPager(s, b), Request(NormalPager(s, b), b, addr, va), b, Slots(0, 511), va)
  {
    RequestCommutes(s, b, addr, va);
    var s', t' := Request(s, b, addr, va), Request(NormalPager(s, b), b, addr, va);
    if Tree(t'.mem, b, t'.limit, Slots(0, 511)) {
      SoundAfter(s, b, addr, va);
      PathsOfPages(PageOf(va), va);
      SameMapping(s, s', b, PageOf(va));
    }
  }

  lemma SameMapping(s: Pager, s': Pager, b: nat, page: nat)
    requires Sound(s, b) && Sound(s', b) && page < PAGES && Ordinary(PagePath(page))
    ensures OnlyMapped(s, s', b, page) <==> Remapped(Normal(s.mem, b), Normal(s'.mem, b), b, page, 1, s.start)
  {
    var m, m' := Normal(s.mem, b), Normal(s'.mem, b);
    assert NthUserFrame(s.start, 0) == s.start / PAGE_SIZE;
    forall n | 0 <= n < PAGES
      ensures Ordinary(PagePath(n)) ==>
                FrameOfPage(s'.mem, b, n) == FrameOfPage(m', b, n) && FrameOfPage(s.mem, b, n) == FrameOfPage(m, b, n)
      ensures !Ordinary(PagePath(n)) ==> FrameOfPage(m', b, n) == FrameOfPage(m, b, n) == None
    {
      if Ordinary(PagePath(n)) {
        SameEntry(s, b, PagePath(n));
        SameEntry(s', b, PagePath(n));
      } else {
        KernelClosed(s, b, n);
        KernelClosed(s', b, n);
      }
    }
    if OnlyMapped(s, s', b, page) {
      assert forall n | 0 <= n < PAGES && Ordinary(PagePath(n)) ::
          FrameOfPage(m', b, n) == if n == page then Some(s.start / PAGE_SIZE) else FrameOfPage(m, b, n);
    }
  }

  /** In every state reached from boot: exactly when a page can be mapped through the tables of an address that does not
      share its page table. */
  lemma StrayOnBootTables(s: Pager, b: nat, addr: nat, va: nat)
    requires Asked(s, b, addr, va) && PathOf(addr)[..3] != PathOf(va)[..3]
    ensures var d := Parting(PathOf(addr), PathOf(va));
            && Servable(s, b, addr)
            && (OnlyMapped(s, Request(s, b, addr, va), b, PageOf(va)) <==>
                && Resolve(s.mem, b, PathOf(addr)[..d + 1]).None?
                && AloneForUsers(s.mem, b, PathOf(va)[..d + 1], PageOf(va)))
  {
    RequestCommutes(s, b, addr, va);
    SameEffect(s, b, addr, va);
    StrayExact(NormalPager(s, b), b, Slots(0, 511), addr, va);
    SameCondition(s, b, PathOf(addr), PathOf(va), PageOf(va));
  }

  /** In every state reached from boot: GROWS_DOWN maps exactly its page and leaves a tree if and only if the page
      does not lie before the beginning of a page table, or else the address lacks the table at which the two part and
      user mode sees nothing else there. */
  lemma GrowsDownOnBootTables(s: Pager, b: nat, addr: nat, va: nat)
    requires PAGE_SIZE <= addr && va == addr - PAGE_SIZE && Asked(s, b, addr, va)
    ensures var path, path' := PathOf(addr), PathOf(va);
            && Servable(s, b, addr) && (PtOffset(addr) == 0 ==> path[..3] != path'[..3])
            && (OnlyMapped(s, Request(s, b, addr, va), b, PageOf(va)) <==>
                || PtOffset(addr) > 0
                || (var d := Parting(path, path');
                    && Resolve(s.mem, b, path[..d + 1]).None?
                    && AloneForUsers(s.mem, b, path'[..d + 1], PageOf(va))))
  {
    if PtOffset(addr) > 0 {
      SamePathBefore(addr);
      RunningStep(s, b, addr, va);
    } else {
      TableStart(addr);
      StrayOnBootTables(s, b, addr, va);
    }
  }

  lemma SameCondition(s: Pager, b: nat, path: Path, path': Path, page: nat)
    requires Running(s, b) && Allowed(path) && |path'| == 4 && path[..3] != path'[..3] && path'[0] == path[0]
    ensures var d, t := Parting(path, path'), NormalPager(s, b);
            && Resolve(s.mem, b, path[..d + 1]) == Resolve(t.mem, b, path[..d + 1])
            && (AloneForUsers(s.mem, b, path'[..d + 1], page) <==> Alone(t.mem, b, path'[..d + 1], page))
  {
    var d := Parting(path, path');
    SameEntry(s, b, path[..d + 1]);
    forall n | 0 <= n < PAGES ensures UserPage(s.mem, b, n) == FrameOfPage(Normal(s.mem, b), b, n) {
      UserSeesTree(s, b, n);
    }
  }

  // ---- The beginning of a page table is reached

  const FIRST_PAGE: nat := 0x8_eee6f  // the page below START_VADDR_FOR_USRS
  const TABLE_START: nat := 0x8_ef00_0000  // where the next page table begins

  /** The `i`-th of 400 addresses from START_VADDR_FOR_USRS on, and the page before it. */
  lemma EarlyPage(i: nat)
    requires i < 400
    ensures PtOffset(START_VADDR_FOR_USRS + i * PAGE_SIZE) == 112 + i
    ensures Allowed(PathOf(START_VADDR_FOR_USRS + i * PAGE_SIZE))
    ensures PageOf(START_VADDR_FOR_USRS + i * PAGE_SIZE - PAGE_SIZE) == FIRST_PAGE + i
    ensures PagePath(FIRST_PAGE + i)[..3] == [0, 35, 375]
  {
    Euclid(START_VADDR_FOR_USRS + i * PAGE_SIZE, PAGE_SIZE, FIRST_PAGE + 1 + i, 0);
    Euclid(FIRST_PAGE + 1 + i, 512, 0x4777, 112 + i);
    Euclid((FIRST_PAGE + i) * PAGE_SIZE, PAGE_SIZE, FIRST_PAGE + i, 0);
    Euclid(FIRST_PAGE + i, 512, 0x4777, 111 + i);
  }

  function Stacks(n: nat): (os: seq<Order>)
    ensures |os| == n
  {
    seq(n, i => GrowStack)
  }

  /** Pages that follow each other from `first` on. */
  ghost predicate InOrder(pages: seq<nat>, first: nat) {
    forall j | 0 <= j < |pages| :: pages[j] == first + j
  }

  /** The last `400 - i` of 400 stack pages. */
  lemma {:induction false} EarlyStacks(d: Desk, i: nat)
    requires i <= 400 && d.userAddr == START_VADDR_FOR_USRS + i * PAGE_SIZE
    ensures var os := Stacks(400 - i);
            && AllFit(d, os) && NextAll(d, os).userAddr == TABLE_START
            && |AllPages(d, os)| == 400 - i && InOrder(AllPages(d, os), FIRST_PAGE + i)
    decreases 400 - i
  {
    if i < 400 {
      EarlyPage(i);
      var d', os := Next(d, GrowStack), Stacks(400 - i);
      assert os[0] == GrowStack && os[1..] == Stacks(400 - i - 1);
      EarlyStacks(d', i + 1);
      assert AllPages(d, os) == [FIRST_PAGE + i] + AllPages(d', os[1..]);
    }
  }

  ghost predicate EarlyPagesThere(mem: Memory, b: nat) {
    forall n | FIRST_PAGE <= n < FIRST_PAGE + 400 :: UserPage(mem, b, n).Some?
  }

  ghost predicate EarlyPagesLost(mem: Memory, b: nat) {
    forall n | FIRST_PAGE <= n < FIRST_PAGE + 400 :: UserPage(mem, b, n) == None
  }

  /** The 400 pages below TABLE_START are there, and the page table that begins at TABLE_START is not. */
  ghost predicate AtTableStart(s: Pager, b: nat) {
    && Running(s, b) && s.limit + 3 <= FIRST_USER_FRAME && Resolve(Normal(s.mem, b), b, [0, 35, 376]) == None
    && EarlyPagesThere(s.mem, b)
  }

  lemma AfterStacks(s: Pager, s': Pager, b: nat, pages: seq<nat>)
    requires Served(s, s', b, pages) && |pages| == 400 && InOrder(pages, FIRST_PAGE)
    requires Booted(s.mem, b) && s.limit + 1203 <= FIRST_USER_FRAME
    ensures AtTableStart(s', b)
  {
    BootRunning(s, b);
    TableMissing(s, s', b, pages);
    forall n | FIRST_PAGE <= n < FIRST_PAGE + 400 ensures UserPage(s'.mem, b, n).Some? {
      UserSeesTree(s, b, n);
      LastFrameIn(pages, s.start, n);
      assert pages[n - FIRST_PAGE] == n;
    }
  }

  /** None of the 400 pages has brought the table of the next address. */
  lemma TableMissing(s: Pager, s': Pager, b: nat, pages: seq<nat>)
    requires Served(s, s', b, pages) && |pages| == 400 && InOrder(pages, FIRST_PAGE) && Booted(s.mem, b)
    ensures Resolve(Normal(s'.mem, b), b, [0, 35, 376]) == None
  {
    var q: Path := [0, 35, 376];
    NormalBoot(s.mem, b, q);
    forall j | 0 <= j < 400 ensures !(q <= PagePath(pages[j])) {
      EarlyPage(j);
      assert PagePath(pages[j])[2] == PagePath(pages[j])[..3][2] == 375;
    }
    assert !IsTable(Normal(s'.mem, b), b, q);
  }

  /** The paths around TABLE_START part at the page directory. */
  lemma TableStartPaths(addr: nat, va: nat)
    requires addr == TABLE_START && va == TABLE_START - PAGE_SIZE
    ensures var p, q := PathOf(addr), PathOf(va);
            && Allowed(p) && Allowed(q) && p[0] == q[0]
            && p[..3] == [0, 35, 376] && q[..3] == [0, 35, 375] && q[..3] != p[..3]
            && Parting(p, q) == 2 && PageOf(va) == FIRST_PAGE + 400
  {
    assert PathOf(addr)[..3][2] == 376 && PathOf(va)[..3][2] == 375;
  }

  /** In any state reached from boot: if the address lacks the table at which the paths part, user mode loses every
      other page below that entry of the page asked for. */
  lemma BranchLost(s: Pager, b: nat, addr: nat, va: nat, d: nat, n: nat)
    requires Asked(s, b, addr, va) && PathOf(va)[..3] != PathOf(addr)[..3] && d == Parting(PathOf(addr), PathOf(va))
    requires Resolve(Normal(s.mem, b), b, PathOf(addr)[..d + 1]).None?
    requires n < PAGES && n != PageOf(va) && PathOf(va)[..d + 1] <= PagePath(n)
    ensures Servable(s, b, addr) && UserPage(Request(s, b, addr, va).mem, b, n) == None
  {
    RequestCommutes(s, b, addr, va);
    NewBranch(NormalPager(s, b), b, Slots(0, 511), addr, va, d);
    SoundAfter(s, b, addr, va);
    var p, q := PagePath(n), PathOf(va)[..d + 1];
    assert q[0] == p[0] && q[1] == p[1];
    SameEntry(Request(s, b, addr, va), b, p);
  }

  lemma TooFar(s: Pager, b: nat, addr: nat, va: nat)
    requires AtTableStart(s, b) && addr == TABLE_START && va == TABLE_START - PAGE_SIZE
    ensures Servable(s, b, addr) && EarlyPagesLost(Request(s, b, addr, va).mem, b)
  {
    TableStartPaths(addr, va);
    RequestCommutes(s, b, addr, va);
    var mem := Request(s, b, addr, va).mem;
    forall n | FIRST_PAGE <= n < FIRST_PAGE + 400 ensures UserPage(mem, b, n) == None {
      EarlyPage(n - FIRST_PAGE);
      BranchLost(s, b, addr, va, 2, n);
    }
  }

  /** `os` are 400 stack pages from START_VADDR_FOR_USRS on. */
  ghost predicate ReachesTableStart(d: Desk, os: seq<Order>) {
    && (forall i | 0 <= i < |os| :: os[i] == GrowStack) && AllFit(d, os) && NextAll(d, os).userAddr == TABLE_START
    && |AllPages(d, os)| == 400 && InOrder(AllPages(d, os), FIRST_PAGE)
  }

  method StackOrders(d: Desk) returns (os: seq<Order>)
    requires d.userAddr == START_VADDR_FOR_USRS
    ensures ReachesTableStart(d, os)
  {
    os := Stacks(400);
    EarlyStacks(d, 0);
  }

  method ServeStacks(k: Kernel, os: seq<Order>)
    requires JustBooted(k) && ReachesTableStart(DeskOf(k), os) && k.Limit() + 1203 <= FIRST_USER_FRAME
    modifies k`mem, k`pdesc, k`physPdesc, k`virtToPhyFlag, k`usrPhysAddr, k`userAddr, k`pmlSameCtxt, k`difCtxt
    ensures k.userAddr == TABLE_START && AtTableStart(k.View(), k.Root())
    ensures Since(k, old(k.View()), AllPages(old(DeskOf(k)), os))
  {
    ghost var s, pages := k.View(), AllPages(DeskOf(k), os);
    BootRunning(s, k.Root());
    ServeOrders(k, os);
    AfterStacks(s, k.View(), k.Root(), pages);
  }

  /** The stack has grown by `os` since boot, up to TABLE_START. */
  ghost predicate Grown(boot: Pager, mid: Pager, b: nat, d: Desk, os: seq<Order>) {
    Booted(boot.mem, b) && ReachesTableStart(d, os) && Served(boot, mid, b, AllPages(d, os)) && AtTableStart(mid, b)
  }

  method ToTableStart(k: Kernel, pageAddr: nat) returns (os: seq<Order>, ghost boot: Pager)
    requires Bootable(k, pageAddr) && k.userAddr == START_VADDR_FOR_USRS
    requires pageAddr / PAGE_SIZE + 99 + 1203 <= FIRST_USER_FRAME
    modifies k
    ensures k.Paging() && k.userAddr == TABLE_START && Grown(boot, k.View(), k.Root(), old(DeskOf(k)), os)
  {
    SetFreeList(k, pageAddr);
    boot := k.View();
    os := StackOrders(DeskOf(k));
    ServeStacks(k, os);
  }

  method OnceMore(k: Kernel)
    requires k.Paging() && k.userAddr == TABLE_START && AtTableStart(k.View(), k.Root())
    modifies k`mem, k`pdesc, k`physPdesc, k`virtToPhyFlag, k`usrPhysAddr, k`userAddr, k`pmlSameCtxt
    ensures Servable(old(k.View()), k.Root(), TABLE_START)
    ensures k.View() == Request(old(k.View()), k.Root(), TABLE_START, TABLE_START - PAGE_SIZE)
    ensures EarlyPagesLost(k.mem, k.Root())
  {
    TooFar(k.View(), k.Root(), k.userAddr, k.userAddr - PAGE_SIZE);
    var _ := k.MemmapGrowsDown();
  }

  /** From boot, 400 GROWS_DOWN requests map 400 pages for user mode, and the next one unmaps them all. */
  method GrowsDownTooFar(k: Kernel, pageAddr: nat) returns (os: seq<Order>, ghost boot: Pager, ghost mid: Pager)
    requires Bootable(k, pageAddr) && k.userAddr == START_VADDR_FOR_USRS
    requires pageAddr / PAGE_SIZE + 99 + 1203 <= FIRST_USER_FRAME
    modifies k
    ensures Grown(boot, mid, k.Root(), old(DeskOf(k)), os) && EarlyPagesThere(mid.mem, k.Root())
    ensures Servable(mid, k.Root(), TABLE_START)
    ensures k.View() == Request(mid, k.Root(), TABLE_START, TABLE_START - PAGE_SIZE)
    ensures EarlyPagesLost(k.mem, k.Root())
  {
    os, boot := ToTableStart(k, pageAddr);
    mid := k.View();
    OnceMore(k);
  }
}
