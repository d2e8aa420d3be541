/** Runs of the kernel from boot: stacks, heap pages, regions and copied pages in any order. */
module BootRuns {
  import opened Options
  import opened Addressing
  import opened PageTables
  import opened PageView
  import opened PageLookup
  import opened UserAddresses
  import opened Regions
  import opened KernelPaging
  import opened PagingRuns
  import opened BootNormal
  import opened UserView

  /** What the kernel asks of memmap: GROWS_DOWN, NEW_PAGE, SET_COW_RW and allocate_regions; and that init_usr_pcb
      clears `dif_ctxt`. */
  datatype Order = GrowStack | NewHeap | CopyPage | Region(va: nat, len: nat) | ClearDifCtxt

  /** The cursors for virtual addresses, and `dif_ctxt`. */
  datatype Desk = Desk(userAddr: nat, pml: nat, dif: bool)

  function NewHeapAt(d: Desk): nat { if d.dif then d.userAddr else d.userAddr + NextPml(d.pml) }

  function Next(d: Desk, o: Order): Desk {
    match o
    case GrowStack => d.(userAddr := NextVirtualAddress(d.userAddr))
    case NewHeap => d.(userAddr := NextVirtualAddress(d.userAddr), pml := if d.dif then d.pml else NextPml(d.pml))
    case CopyPage => d.(userAddr := NextVirtualAddress(d.userAddr))
    case Region(_, _) => d
    case ClearDifCtxt => d.(dif := false)
  }

  /** The pages an order maps, one after the other. */
  function PagesOf(d: Desk, o: Order): seq<nat> {
    match o
    case GrowStack => [PageOf(if PAGE_SIZE <= d.userAddr then d.userAddr - PAGE_SIZE else 0)]
    case NewHeap => [PageOf(NewHeapAt(d))]
    case CopyPage => [PageOf(d.userAddr)]
    case Region(va, len) => seq(RegionPages(va, len), i requires 0 <= i => PageOf(va + i * PAGE_SIZE))
    case ClearDifCtxt => []
  }

  function NextAll(d: Desk, os: seq<Order>): Desk
    decreases |os|
  {
    if os == [] then d else NextAll(Next(d, os[0]), os[1..])
  }

  function AllPages(d: Desk, os: seq<Order>): seq<nat>
    decreases |os|
  {
    if os == [] then [] else PagesOf(d, os[0]) + AllPages(Next(d, os[0]), os[1..])
  }

  predicate AllowedPage(va: nat, i: nat) { Allowed(PathOf(va + i * PAGE_SIZE)) }

  /** An order is for user addresses, and a stack does not grow down out of its page table. */
  predicate Fits(d: Desk, o: Order) {
    match o
    case GrowStack => PAGE_SIZE <= d.userAddr && Allowed(PathOf(d.userAddr)) && PtOffset(d.userAddr) > 0
    case NewHeap => Allowed(PathOf(NewHeapAt(d)))
    case CopyPage => Allowed(PathOf(d.userAddr))
    case Region(va, len) =>
      && RegionPages(va, len) <= 0x8_0000
      && forall i | 0 <= i < RegionPages(va, len) :: AllowedPage(va, i)
    case ClearDifCtxt => true
  }

  predicate AllFit(d: Desk, os: seq<Order>)
    decreases |os|
  {
    os == [] || (Fits(d, os[0]) && AllFit(Next(d, os[0]), os[1..]))
  }

  // ---- What a run has done

  /** The frame of page `n` after `pages` have been mapped, each to the next user frame from `start` on. */
  function LastFrame(pages: seq<nat>, start: nat, n: nat, before: Option<nat>): Option<nat> {
    if pages == [] then before
    else
      var k := |pages| - 1;
      if pages[k] == n then Some(NthUserFrame(start, k)) else LastFrame(pages[..k], start, n, before)
  }

  lemma {:induction false} LastFrameIn(pages: seq<nat>, start: nat, n: nat)
    ensures LastFrame(pages, start, n, None).Some? <==> n in pages
  {
    if pages != [] {
      var k := |pages| - 1;
      LastFrameIn(pages[..k], start, n);
      assert pages == pages[..k] + [pages[k]];
    }
  }

  /** User mode sees what it saw in `m`, and `pages` over it. */
  ghost predicate UserRun(m: Memory, m': Memory, b: nat, pages: seq<nat>, start: nat) {
    forall n | 0 <= n < PAGES :: UserPage(m', b, n) == LastFrame(pages, start, n, UserPage(m, b, n))
  }

  lemma UserRunOn(m: Memory, m1: Memory, m2: Memory, b: nat, pages: seq<nat>, start: nat, page: nat)
    requires UserRun(m, m1, b, pages, start) && UserMapped(m1, m2, b, page, NthUserFrame(start, |pages|))
    ensures UserRun(m, m2, b, pages + [page], start)
  {
    assert (pages + [page])[..|pages|] == pages;
  }

  /** From `s` to `s'`, `pages` have been mapped, and tables were only added for them. */
  ghost predicate Served(s: Pager, s': Pager, b: nat, pages: seq<nat>) {
    && Running(s, b) && Running(s', b) && s'.limit <= s.limit + 3 * |pages| && s'.start == UserAddress(s.start, |pages|)
    && UserRun(s.mem, s'.mem, b, pages, s.start)
    && NewTablesFor(Normal(s.mem, b), Normal(s'.mem, b), b, pages, |pages|)
  }

  /** One request more. */
  lemma ServedOn(s: Pager, s1: Pager, b: nat, pages: seq<nat>, addr: nat, va: nat)
    requires Served(s, s1, b, pages) && s.limit + 3 * |pages| + 3 <= FIRST_USER_FRAME
    requires Allowed(PathOf(addr)) && PathOf(va)[..3] == PathOf(addr)[..3]
    ensures Servable(s1, b, addr) && Served(s, Request(s1, b, addr, va), b, pages + [PageOf(va)])
  {
    SamePrefix(PathOf(addr), PathOf(va));
    RunningStep(s1, b, addr, va);
    var s2 := Request(s1, b, addr, va);
    UserRunOn(s.mem, s1.mem, s2.mem, b, pages, s.start, PageOf(va));
    PathsOfPages(PageOf(va), va);
    MoreTables(Normal(s.mem, b), Normal(s1.mem, b), b, pages, PageOf(va));
    TablesAfterCall(Normal(s.mem, b), Normal(s1.mem, b), Normal(s2.mem, b), b, pages + [PageOf(va)], |pages|);
  }

  lemma SamePrefix(p: Path, q: Path)
    requires |p| == |q| == 4 && q[..3] == p[..3]
    ensures q[0] == p[0] && q[1] == p[1] && (Allowed(p) <==> Allowed(q))
  {
    assert q[0] == q[..3][0] && q[1] == q[..3][1];
  }

  lemma MoreTables(m: Memory, m': Memory, b: nat, pages: seq<nat>, page: nat)
    requires NewTablesFor(m, m', b, pages, |pages|)
    ensures NewTablesFor(m, m', b, pages + [page], |pages|)
  {
    forall q | IsTable(m', b, q) && !IsTable(m, b, q)
      ensures exists j | 0 <= j < |pages| :: q <= PagePath((pages + [page])[j])
    {
      var j :| 0 <= j < |pages| && q <= PagePath(pages[j]);
      assert (pages + [page])[j] == pages[j];
    }
  }

  // ---- The kernel

  function DeskOf(k: Kernel): Desk
    reads k
  {
    Desk(k.userAddr, k.pmlSameCtxt, k.difCtxt)
  }

  ghost predicate Since(k: Kernel, s: Pager, pages: seq<nat>)
    reads k
  {
    k.Paging() && Served(s, k.View(), k.Root(), pages)
  }

  lemma RoundedPath(addr: nat)
    ensures PathOf(RoundDown(addr)) == PathOf(addr) && PageOf(RoundDown(addr)) == PageOf(addr)
  {
    assert RoundDown(addr) / PAGE_SIZE == addr / PAGE_SIZE;
  }

  /** The kernel has served one request more. */
  lemma SinceOn(k: Kernel, s: Pager, s1: Pager, pages: seq<nat>, addr: nat, va: nat)
    requires k.Paging() && Served(s, s1, k.Root(), pages) && s.limit + 3 * |pages| + 3 <= FIRST_USER_FRAME
    requires Allowed(PathOf(addr)) && PathOf(va)[..3] == PathOf(addr)[..3] && Servable(s1, k.Root(), addr)
    requires k.View() == Request(s1, k.Root(), addr, va)
    ensures Since(k, s, pages + [PageOf(va)])
  {
    ServedOn(s, s1, k.Root(), pages, addr, va);
  }

  lemma CanServe(k: Kernel, s: Pager, pages: seq<nat>, addr: nat)
    requires Since(k, s, pages) && s.limit + 3 * |pages| + 3 <= FIRST_USER_FRAME && Allowed(PathOf(addr))
    ensures Servable(k.View(), k.Root(), addr)
  {
    ServedOn(s, k.View(), k.Root(), pages, addr, addr);
  }

  lemma StackFits(d: Desk, addr: nat)
    requires Fits(d, GrowStack) && addr == d.userAddr
    ensures PAGE_SIZE <= addr && Allowed(PathOf(addr)) && PathOf(addr - PAGE_SIZE)[..3] == PathOf(addr)[..3]
    ensures PagesOf(d, GrowStack) == [PageOf(addr - PAGE_SIZE)]
  {
    SamePathBefore(addr);
  }

  lemma HeapFits(d: Desk, addr: nat)
    requires Fits(d, NewHeap) && addr == NewHeapAt(d)
    ensures Allowed(PathOf(addr)) && PagesOf(d, NewHeap) == [PageOf(addr)]
  {
  }

  lemma CopyFits(d: Desk, addr: nat)
    requires Fits(d, CopyPage) && addr == d.userAddr
    ensures Allowed(PathOf(addr)) && PathOf(RoundDown(addr)) == PathOf(addr)
    ensures PagesOf(d, CopyPage) == [PageOf(RoundDown(addr))]
  {
    RoundedPath(addr);
  }

  method ServeStack(k: Kernel, ghost s: Pager, ghost pages: seq<nat>)
    requires Since(k, s, pages) && s.limit + 3 * |pages| + 3 <= FIRST_USER_FRAME && Fits(DeskOf(k), GrowStack)
    modifies k`mem, k`pdesc, k`physPdesc, k`virtToPhyFlag, k`usrPhysAddr, k`userAddr, k`pmlSameCtxt
    ensures DeskOf(k) == Next(old(DeskOf(k)), GrowStack) && Since(k, s, pages + PagesOf(old(DeskOf(k)), GrowStack))
  {
    ghost var s1, target := k.View(), k.userAddr;
    StackFits(DeskOf(k), target);
    CanServe(k, s, pages, target);
    var addr := k.MemmapGrowsDown();
    SinceOn(k, s, s1, pages, addr, addr - PAGE_SIZE);
  }

  method ServeHeap(k: Kernel, ghost s: Pager, ghost pages: seq<nat>)
    requires Since(k, s, pages) && s.limit + 3 * |pages| + 3 <= FIRST_USER_FRAME && Fits(DeskOf(k), NewHeap)
    modifies k`mem, k`pdesc, k`physPdesc, k`virtToPhyFlag, k`usrPhysAddr, k`userAddr, k`pmlSameCtxt
    ensures DeskOf(k) == Next(old(DeskOf(k)), NewHeap) && Since(k, s, pages + PagesOf(old(DeskOf(k)), NewHeap))
  {
    ghost var s1, target := k.View(), k.NewPageTarget();
    HeapFits(DeskOf(k), target);
    CanServe(k, s, pages, target);
    var addr := k.MemmapNewPage();
    SinceOn(k, s, s1, pages, addr, addr);
  }

  method ServeCopy(k: Kernel, ghost s: Pager, ghost pages: seq<nat>)
    requires Since(k, s, pages) && s.limit + 3 * |pages| + 3 <= FIRST_USER_FRAME && Fits(DeskOf(k), CopyPage)
    modifies k`mem, k`pdesc, k`physPdesc, k`virtToPhyFlag, k`usrPhysAddr, k`userAddr
    ensures DeskOf(k) == Next(old(DeskOf(k)), CopyPage) && Since(k, s, pages + PagesOf(old(DeskOf(k)), CopyPage))
  {
    ghost var s1, target := k.View(), k.userAddr;
    CopyFits(DeskOf(k), target);
    CanServe(k, s, pages, target);
    var addr := k.MemmapSetCowRw();
    SinceOn(k, s, s1, pages, addr, RoundDown(addr));
  }

  method ServeAddress(k: Kernel, addr: nat, ghost page: nat, ghost s: Pager, ghost pages: seq<nat>)
    requires Since(k, s, pages) && s.limit + 3 * |pages| + 3 <= FIRST_USER_FRAME
    requires Allowed(PathOf(addr)) && page == PageOf(addr)
    modifies k`mem, k`pdesc, k`physPdesc, k`virtToPhyFlag, k`usrPhysAddr
    ensures Since(k, s, pages + [page])
  {
    CanServe(k, s, pages, addr);
    ghost var s1 := k.View();
    k.MemmapOnePage(addr);
    RoundedPath(addr);
    SinceOn(k, s, s1, pages, addr, RoundDown(addr));
  }

  /** allocate_regions */
  method ServeRegion(k: Kernel, va: nat, len: nat, ghost s: Pager, ghost pages: seq<nat>)
    requires Since(k, s, pages) && Fits(DeskOf(k), Region(va, len))
    requires s.limit + 3 * (|pages| + RegionPages(va, len)) <= FIRST_USER_FRAME
    modifies k`mem, k`pdesc, k`physPdesc, k`virtToPhyFlag, k`usrPhysAddr
    ensures Since(k, s, pages + PagesOf(DeskOf(k), Region(va, len)))
  {
    var num := k.RegionSize(va, len);
    ServePages(k, va, num, PagesOf(DeskOf(k), Region(va, len)), s, pages);
  }

  /** `all` are the first `num` pages from `va` on, at allowed addresses. */
  ghost predicate PagesFrom(va: nat, num: nat, all: seq<nat>) {
    |all| == num && forall i | 0 <= i < num :: all[i] == PageOf(va + i * PAGE_SIZE) && AllowedPage(va, i)
  }

  method ServePages(k: Kernel, va: nat, num: nat, ghost all: seq<nat>, ghost s: Pager, ghost pages: seq<nat>)
    requires Since(k, s, pages) && s.limit + 3 * (|pages| + num) <= FIRST_USER_FRAME && PagesFrom(va, num, all)
    modifies k`mem, k`pdesc, k`physPdesc, k`virtToPhyFlag, k`usrPhysAddr
    ensures Since(k, s, pages + all)
  {
    ghost var done := pages;
    assert pages + all[..0] == pages;
    for i := 0 to num
      invariant Since(k, s, done) && done == pages + all[..i]
    {
      var addr := va + i * PAGE_SIZE;
      PageFrom(va, num, all, i, addr);
      ServeAddress(k, addr, all[i], s, done);
      Extend(pages, all, i);
      done := done + [all[i]];
    }
    assert all[..num] == all;
  }

  lemma PageFrom(va: nat, num: nat, all: seq<nat>, i: nat, addr: nat)
    requires PagesFrom(va, num, all) && i < num && addr == va + i * PAGE_SIZE
    ensures Allowed(PathOf(addr)) && all[i] == PageOf(addr)
  {
    assert AllowedPage(va, i);
  }

  lemma Extend(pages: seq<nat>, all: seq<nat>, i: nat)
    requires i < |all|
    ensures pages + all[..i] + [all[i]] == pages + all[..i + 1]
  {
  }

  method ServeOrder(k: Kernel, o: Order, ghost s: Pager, ghost pages: seq<nat>)
    requires Since(k, s, pages) && Fits(DeskOf(k), o)
    requires s.limit + 3 * (|pages| + |PagesOf(DeskOf(k), o)|) <= FIRST_USER_FRAME
    modifies k`mem, k`pdesc, k`physPdesc, k`virtToPhyFlag, k`usrPhysAddr, k`userAddr, k`pmlSameCtxt, k`difCtxt
    ensures DeskOf(k) == Next(old(DeskOf(k)), o) && Since(k, s, pages + PagesOf(old(DeskOf(k)), o))
  {
    match o {
      case GrowStack => ServeStack(k, s, pages);
      case NewHeap => ServeHeap(k, s, pages);
      case CopyPage => ServeCopy(k, s, pages);
      case Region(va, len) => ServeRegion(k, va, len, s, pages);
      case ClearDifCtxt =>
        assert pages + PagesOf(DeskOf(k), o) == pages;
        k.difCtxt := false;
    }
  }

  /** Any orders for user addresses, in any order, on the tables that boot left: user mode sees exactly the pages asked
      for, each in the frame it was given last. */
  method ServeOrders(k: Kernel, os: seq<Order>)
    requires k.Paging() && Running(k.View(), k.Root()) && AllFit(DeskOf(k), os)
    requires k.Limit() + 3 * |AllPages(DeskOf(k), os)| <= FIRST_USER_FRAME
    modifies k`mem, k`pdesc, k`physPdesc, k`virtToPhyFlag, k`usrPhysAddr, k`userAddr, k`pmlSameCtxt, k`difCtxt
    ensures DeskOf(k) == NextAll(old(DeskOf(k)), os)
    ensures Since(k, old(k.View()), AllPages(old(DeskOf(k)), os))
  {
    ghost var s, d, pages := k.View(), DeskOf(k), [];
    NothingServed(s, k.Root());
    var i := 0;
    ghost var all := AllPages(d, os);
    assert os[0..] == os && pages + all == all;
    while i < |os|
      invariant 0 <= i <= |os| && AllFit(DeskOf(k), os[i..]) && NextAll(DeskOf(k), os[i..]) == NextAll(d, os)
      invariant Since(k, s, pages) && pages + AllPages(DeskOf(k), os[i..]) == all
    {
      ghost var d1 := DeskOf(k);
      OneOrder(d1, os[i..], pages, all);
      assert os[i..][0] == os[i] && os[i..][1..] == os[i + 1..];
      ServeOrder(k, os[i], s, pages);
      pages := pages + PagesOf(d1, os[i]);
      i := i + 1;
    }
    assert pages == all;
  }

  lemma NothingServed(s: Pager, b: nat)
    requires Running(s, b)
    ensures Served(s, s, b, [])
  {
  }

  lemma OneOrder(d: Desk, os: seq<Order>, pages: seq<nat>, all: seq<nat>)
    requires os != [] && pages + AllPages(d, os) == all
    ensures |pages| + |PagesOf(d, os[0])| <= |all|
    ensures pages + PagesOf(d, os[0]) + AllPages(Next(d, os[0]), os[1..]) == all
  {
    var x, y := PagesOf(d, os[0]), AllPages(Next(d, os[0]), os[1..]);
    assert pages + (x + y) == (pages + x) + y;
  }
}
