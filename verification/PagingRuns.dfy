/** What holds over whole runs of paging calls, and where a call leaves the tree. */
module PagingRuns {
  import opened Options
  import opened Addressing
  import opened PageTables
  import opened PageView
  import opened PageLookup
  import opened UserAddresses
  import opened KernelPaging

  /** In a tree below the user frames, no page of it open to user mode is mapped to a page table. */
  lemma UserPagesAreNoTables(mem: Memory, root: nat, limit: nat, slots: set<nat>, n: nat, q: Path)
    requires ValidMemory(mem) && Tree(mem, root, limit, slots) && limit <= FIRST_USER_FRAME && PagePath(n)[0] in slots
    requires FrameOfPage(mem, root, n).Some? && PageGrants(mem, root, n, User)
    ensures IsUserFrame(FrameOfPage(mem, root, n).value)
    ensures IsTable(mem, root, q) ==> Resolve(mem, root, q) != FrameOfPage(mem, root, n)
  {
    var p := PagePath(n);
    var t, e := Resolve(mem, root, p[..3]), EntryOn(mem, root, p[..4]);
    assert p[..4] == p && p[..4][..3] == p[..3];
    assert Present(e) && Has(e, User);
    assert GoodTable(mem, root, limit, slots, p[..3]) && GoodTable(mem, root, limit, slots, q);
    assert e == mem[t.value][p[3]];
    Euclid(e / PAGE_SIZE, 0x100_0000_0000, 0, e / PAGE_SIZE);
  }

  /** The memories before and after each call of a run that maps `pages`, each to the next user frame. */
  ghost predicate IsRun(ms: seq<Memory>, root: nat, pages: seq<nat>, start: nat) {
    |ms| == |pages| + 1
    && forall k | 0 <= k < |pages| ::
         PagesMapped(ms[k], ms[k + 1], root, pages[k], 1, UserAddress(start, k), USR_PERM_BITS)
  }

  predicate DistinctPages(pages: seq<nat>) {
    && (forall k | 0 <= k < |pages| :: pages[k] < PAGES)
    && (forall j, k | 0 <= j < k < |pages| :: pages[j] != pages[k])
  }

  lemma OnePageMapped(m: Memory, m': Memory, root: nat, page: nat, start: nat, i: nat)
    requires PagesMapped(m, m', root, page, 1, UserAddress(start, i), USR_PERM_BITS) && page < PAGES
    ensures forall n | 0 <= n < PAGES ::
              FrameOfPage(m', root, n) == if n == page then Some(NthUserFrame(start, i)) else FrameOfPage(m, root, n)
    ensures forall n, r | 0 <= n < PAGES :: n == page || PageGrants(m, root, n, r) ==> PageGrants(m', root, n, r)
  {
    assert NthUserFrame(UserAddress(start, i), 0) == NthUserFrame(start, i);
    forall n, r | 0 <= n < PAGES && (n == page || PageGrants(m, root, n, r)) ensures PageGrants(m', root, n, r) {
      assert Has(USR_PERM_BITS, r) && RightMoved(m, m', root, page, USR_PERM_BITS, n, r);
    }
  }

  /** A run over distinct pages keeps every page it has mapped, each with its own frame and open to user mode,
      and touches no other page. */
  lemma {:induction false} RunKeepsItsPages(ms: seq<Memory>, root: nat, pages: seq<nat>, start: nat, j: nat)
    requires ValidUserAddress(start) && IsRun(ms, root, pages, start) && DistinctPages(pages) && j <= |pages|
    ensures forall k | 0 <= k < j :: FrameOfPage(ms[j], root, pages[k]) == Some(NthUserFrame(start, k))
    ensures forall k, r | 0 <= k < j :: PageGrants(ms[j], root, pages[k], r)
    ensures forall n | 0 <= n < PAGES && n !in pages[..j] :: FrameOfPage(ms[j], root, n) == FrameOfPage(ms[0], root, n)
    decreases j
  {
    if j > 0 {
      var i := j - 1;
      var m, m', page := ms[i], ms[j], pages[i];
      RunKeepsItsPages(ms, root, pages, start, i);
      assert PagesMapped(m, m', root, page, 1, UserAddress(start, i), USR_PERM_BITS);
      OnePageMapped(m, m', root, page, start, i);
      assert pages[..j] == pages[..i] + [page];
    }
  }

  /** The pages of a run of NEW_PAGE and GROWS_DOWN calls. */
  function RunPages(c: Cursors, calls: seq<Call>): seq<nat>
    requires forall k | 0 <= k < |calls| :: PAGE_SIZE <= After(c, calls[..k]).userAddr
  {
    seq(|calls|, k requires 0 <= k < |calls| => PageOf(PageAt(c, calls, k)))
  }

  /** A run of calls has ended: its pages are mapped, each to the frame it was given and open to user mode, and every
      other page is as it was. */
  ghost predicate RunDone(mem: Memory, mem': Memory, root: nat, pages: seq<nat>, start: nat) {
    && (forall k | 0 <= k < |pages| :: FrameOfPage(mem', root, pages[k]) == Some(NthUserFrame(start, k)))
    && (forall k, r | 0 <= k < |pages| :: PageGrants(mem', root, pages[k], r))
    && (forall n | 0 <= n < PAGES && n !in pages :: FrameOfPage(mem', root, n) == FrameOfPage(mem, root, n))
  }

  /** Unless a NEW_PAGE clashes with a GROWS_DOWN right behind it, the pages of a run are distinct, and it keeps
      them. */
  lemma RunOfCalls(ms: seq<Memory>, root: nat, c: Cursors, slot: nat, calls: seq<Call>, start: nat)
    requires Start(c, slot, |calls|) && ValidUserAddress(start) && forall k | 0 <= k < |calls| :: !Clash(slot, calls, k)
    requires forall k | 0 <= k < |calls| :: PAGE_SIZE <= After(c, calls[..k]).userAddr
    requires IsRun(ms, root, RunPages(c, calls), start)
    ensures DistinctPages(RunPages(c, calls)) && RunDone(ms[0], ms[|calls|], root, RunPages(c, calls), start)
  {
    PagesOfRun(c, slot, calls);
    var pages := RunPages(c, calls);
    RunKeepsItsPages(ms, root, pages, start, |pages|);
    assert pages[..|pages|] == pages;
  }

  // ---- Runs of the kernel

  /** The PML4 entry below which the tables of the `k`-th call are looked up. */
  function SlotFor(slot: nat, calls: seq<Call>, k: nat): nat
    requires k < |calls|
  {
    if calls[k].NewPage? then SlotOf(slot, calls, k) else 0
  }

  /** Every call of the run stays in the tree, and no GROWS_DOWN is made at the beginning of a page table. */
  ghost predicate CanRun(k: Kernel, slot: nat, calls: seq<Call>)
    reads k
  {
    && k.Valid() && !k.difCtxt && Start(k.VaCursors(), slot, |calls|)
    && k.Limit() + 3 * |calls| <= FIRST_USER_FRAME
    && (forall i | 0 <= i < |calls| :: SlotFor(slot, calls, i) in k.slots)
    && (forall i | 0 <= i < |calls| :: calls[i].GrowsDown? ==> PtOffset(k.userAddr + i * PAGE_SIZE) > 0)
  }

  method Serve(k: Kernel, call: Call)
    requires k.Valid() && !k.difCtxt && PAGE_SIZE <= k.userAddr && k.Limit() + 3 <= FIRST_USER_FRAME
    requires call.NewPage? ==> Pml4Offset(Target(k.VaCursors(), call)) in k.slots
    requires call.GrowsDown? ==> Pml4Offset(k.userAddr) in k.slots && PtOffset(k.userAddr) > 0
    modifies k`mem, k`pdesc, k`physPdesc, k`virtToPhyFlag, k`usrPhysAddr, k`userAddr, k`pmlSameCtxt
    ensures k.Valid() && k.VaCursors() == old(Step(k.VaCursors(), call))
    ensures OneMore(old(k.View()), k.View(), k.Root(), PageOf(old(Target(k.VaCursors(), call))))
  {
    if call.NewPage? {
      var _ := k.NewPageInTree();
    } else {
      var _ := k.GrowsDownInTree();
    }
  }

  /** Where the cursors stand before call `i`, and what it needs. */
  lemma BeforeCall(c: Cursors, slot: nat, calls: seq<Call>, i: nat)
    requires Start(c, slot, |calls|) && i < |calls|
    ensures var now := After(c, calls[..i]);
            && now.userAddr == c.userAddr + i * PAGE_SIZE && PAGE_SIZE <= now.userAddr
            && (calls[i].NewPage? ==> Pml4Offset(Target(now, calls[i])) == SlotOf(slot, calls, i))
            && Pml4Offset(now.userAddr) == 0
            && After(c, calls[..i + 1]) == Step(now, calls[i])
  {
    PageInRun(c, slot, calls, i);
    CursorsAfter(c, slot, calls[..i]);
    assert calls[..i + 1][..i] == calls[..i];
    SlotArithmetic(c.userAddr + i * PAGE_SIZE, 0);
  }

  /** No table has appeared but on the paths to the first `i` pages. */
  ghost predicate NewTablesFor(mem: Memory, mem': Memory, root: nat, pages: seq<nat>, i: nat)
    requires i <= |pages|
  {
    forall q | IsTable(mem', root, q) :: IsTable(mem, root, q) || exists j | 0 <= j < i :: q <= PagePath(pages[j])
  }

  /** Serves the calls one after the other, recording memory in between: each maps exactly its page. */
  method ServeAll(k: Kernel, slot: nat, calls: seq<Call>) returns (ghost ms: seq<Memory>)
    requires CanRun(k, slot, calls)
    modifies k`mem, k`pdesc, k`physPdesc, k`virtToPhyFlag, k`usrPhysAddr, k`userAddr, k`pmlSameCtxt
    ensures k.Valid() && k.VaCursors() == After(old(k.VaCursors()), calls)
    ensures k.Limit() <= old(k.Limit()) + 3 * |calls| && k.usrPhysAddr == UserAddress(old(k.usrPhysAddr), |calls|)
    ensures forall i | 0 <= i < |calls| :: PAGE_SIZE <= After(old(k.VaCursors()), calls[..i]).userAddr
    ensures IsRun(ms, k.Root(), RunPages(old(k.VaCursors()), calls), old(k.usrPhysAddr))
    ensures ms[0] == old(k.mem) && ms[|calls|] == k.mem
    ensures NewTablesFor(old(k.mem), k.mem, k.Root(), RunPages(old(k.VaCursors()), calls), |calls|)
  {
    ghost var c, start, m0, root, limit := k.VaCursors(), k.usrPhysAddr, k.mem, k.Root(), k.Limit();
    forall i | 0 <= i < |calls| ensures PAGE_SIZE <= After(c, calls[..i]).userAddr {
      BeforeCall(c, slot, calls, i);
    }
    ghost var pages := RunPages(c, calls);
    ms := [k.mem];
    var i := 0;
    while i < |calls|
      invariant 0 <= i <= |calls| && k.Valid() && k.VaCursors() == After(c, calls[..i])
      invariant k.Limit() <= limit + 3 * i && k.usrPhysAddr == UserAddress(start, i)
      invariant |ms| == i + 1 && ms[0] == m0 && ms[i] == k.mem
      invariant forall j | 0 <= j < i ::
                  PagesMapped(ms[j], ms[j + 1], root, pages[j], 1, UserAddress(start, j), USR_PERM_BITS)
      invariant NewTablesFor(m0, k.mem, root, pages, i)
    {
      ghost var before := k.View();
      BeforeCall(c, slot, calls, i);
      assert SlotFor(slot, calls, i) in k.slots;
      Serve(k, calls[i]);
      ms := ms + [k.mem];
      TablesAfterCall(m0, before.mem, k.mem, root, pages, i);
      i := i + 1;
    }
    assert calls[..|calls|] == calls;
  }

  lemma TablesAfterCall(m0: Memory, m: Memory, m': Memory, root: nat, pages: seq<nat>, i: nat)
    requires i < |pages| && NewTablesFor(m0, m, root, pages, i) && NewTablesOn(m, m', root, PagePath(pages[i]))
    ensures NewTablesFor(m0, m', root, pages, i + 1)
  {
  }

  /** A run of NEW_PAGE and GROWS_DOWN calls on the kernel: unless a NEW_PAGE clashes with the GROWS_DOWN behind it, all
      pages of the run are mapped in the end, no other page has changed, and none is in the kernel's slot. */
  method RunCalls(k: Kernel, slot: nat, calls: seq<Call>)
    requires CanRun(k, slot, calls) && forall i | 0 <= i < |calls| :: !Clash(slot, calls, i)
    modifies k`mem, k`pdesc, k`physPdesc, k`virtToPhyFlag, k`usrPhysAddr, k`userAddr, k`pmlSameCtxt
    ensures k.Valid() && k.VaCursors() == After(old(k.VaCursors()), calls)
    ensures forall i | 0 <= i < |calls| :: PAGE_SIZE <= After(old(k.VaCursors()), calls[..i]).userAddr
    ensures DistinctPages(RunPages(old(k.VaCursors()), calls))
    ensures RunDone(old(k.mem), k.mem, k.Root(), RunPages(old(k.VaCursors()), calls), old(k.usrPhysAddr))
    ensures forall i | 0 <= i < |calls| :: Pml4Offset(PageAt(old(k.VaCursors()), calls, i)) != 511
  {
    ghost var c, start := k.VaCursors(), k.usrPhysAddr;
    PagesOfRun(c, slot, calls);
    ghost var ms := ServeAll(k, slot, calls);
    RunOfCalls(ms, k.Root(), c, slot, calls, start);
  }

  /** A freshly allocated PML4 table is a tree, with no page mapped: this is where runs can start. */
  lemma FreshRoot(mem: Memory, root: nat, limit: nat)
    requires ValidMemory(mem) && root < limit && root < |mem| && mem[root] == ZeroTable()
    ensures Tree(mem, root, limit, Slots(0, TABLE_SIZE))
    ensures forall n | 0 <= n < PAGES :: FrameOfPage(mem, root, n) == None
  {
    var slots := Slots(0, TABLE_SIZE);
    forall p: Path ensures Resolve(mem, root, p) == if p == [] then Some(root) else None {
      NothingBelow(mem, root, p);
    }
    assert forall p :: GoodTable(mem, root, limit, slots, p);
  }

  lemma {:induction false} NothingBelow(mem: Memory, root: nat, p: Path)
    requires ValidMemory(mem) && root < |mem| && mem[root] == ZeroTable()
    ensures Resolve(mem, root, p) == if p == [] then Some(root) else None
    decreases |p|
  {
    if p != [] { NothingBelow(mem, root, p[..|p| - 1]); }
  }
}
