/** What memmap meets in the PML4 table that boot leaves. get_page does not clear its pages, so the upper tables
    keep the mark and the link of the list in words 0 and 1. Below the entries from 2 to 510 the tables form a tree
    all the same; below entries 0 and 1 they do not. */
module BootTree {
  import opened Options
  import opened Addressing
  import opened PageTables
  import opened PageInstall
  import opened PageView
  import opened PageLookup
  import opened PageBoundary
  import opened UserAddresses
  import opened KernelPaging
  import opened Boot

  /** The words of frame `f` from `first` on are zero, but for one. */
  ghost predicate ZeroWords(mem: Memory, f: nat, first: nat, but: nat) {
    forall i: nat | first <= i && i != but :: Read(mem, f, i) == 0
  }

  /** Memory after boot, if the pages of the list and frame 0 were clear before; the PML4 table is in frame `b`. */
  ghost predicate Booted(mem: Memory, b: nat) {
    && ValidMemory(mem) && 0 < b && b + 52 <= |mem|
    && UpperDone(mem, b) && (forall j: nat | j < 49 :: RegionDone(mem, b, j))
    && Read(mem, b, 0) == 1 && Read(mem, b, 1) == (b + 1) * PAGE_SIZE && ZeroWords(mem, b, 2, 511)
    && Read(mem, b + 1, 0) == 1 && Read(mem, b + 1, 1) == (b + 2) * PAGE_SIZE && ZeroWords(mem, b + 1, 2, 510)
    && ZeroWords(mem, b + 2, 49, 0) && ZeroWords(mem, 0, 0, TABLE_SIZE)
  }

  /** The mark reads as an entry for frame 0, the link as an entry that is not present. */
  lemma ListWords(f: nat)
    ensures Present(1) && FrameIn(1) == 0 && !Present(f * PAGE_SIZE)
  {
  }

  lemma BootDepth1(mem: Memory, b: nat, p: Path)
    requires Booted(mem, b) && |p| == 1
    ensures Resolve(mem, b, p) == if p[0] == 0 then Some(0) else if p[0] == 511 then Some(b + 1) else None
  {
    ListWords(b + 1);
    EntryFields(b + 1, KERN_PERM_BITS);
    assert EntryOn(mem, b, p) == Read(mem, b, p[0]);
  }

  lemma BootDepth2(mem: Memory, b: nat, p: Path)
    requires Booted(mem, b) && |p| == 2
    ensures Resolve(mem, b, p) == if p == [511, 0] then Some(0) else if p == [511, 510] then Some(b + 2) else None
  {
    ListWords(b + 2);
    BootDepth1(mem, b, p[..1]);
    assert Read(mem, 0, p[1]) == 0;
    EntryFields(b + 2, KERN_PERM_BITS);
    assert p == [p[0], p[1]];
  }

  lemma BootDepth3(mem: Memory, b: nat, p: Path)
    requires Booted(mem, b) && |p| == 3
    ensures Resolve(mem, b, p) == if p[..2] == [511, 510] && p[2] < 49 then Some(TableOf(b, p[2])) else None
  {
    BootDepth2(mem, b, p[..2]);
    assert Read(mem, 0, p[2]) == 0;
    if p[..2] == [511, 510] && p[2] < 49 {
      assert RegionDone(mem, b, p[2]);
      EntryFields(TableOf(b, p[2]), KERN_PERM_BITS);
    }
  }

  /** All tables of the boot PML4 are below entries 0 and 511. */
  lemma BootTables(mem: Memory, b: nat, p: Path)
    requires Booted(mem, b) && p != [] && IsTable(mem, b, p)
    ensures (p[0] == 0 || p[0] == 511) && Resolve(mem, b, p).value != b && Resolve(mem, b, p).value < b + 52
  {
    if |p| == 1 { BootDepth1(mem, b, p); }
    else if |p| == 2 { BootDepth2(mem, b, p); }
    else {
      BootDepth3(mem, b, p);
      assert p[0] == p[..2][0];
    }
  }

  /** Boot establishes the tree below the entries from 2 to 510. */
  lemma BootIsTree(mem: Memory, b: nat, limit: nat)
    requires Booted(mem, b) && b + 52 <= limit
    ensures Tree(mem, b, limit, Slots(2, 511))
  {
    var slots := Slots(2, 511);
    forall p ensures GoodTable(mem, b, limit, slots, p) {
      if p != [] && IsTable(mem, b, p) { BootTables(mem, b, p); }
      assert forall i | 2 <= i < 511 :: Read(mem, b, i) == 0 == mem[b][i];
    }
    forall p, q ensures Apart(mem, b, slots, p, q) {
      if p != [] && IsTable(mem, b, p) { BootTables(mem, b, p); }
      if q != [] && IsTable(mem, b, q) { BootTables(mem, b, q); }
    }
  }

  ghost predicate DirectMapped(mem: Memory, root: nat) {
    forall a: nat | a < 49 * REGION :: Walk(mem, root, VIRT_BASE + a) == Page(a / PAGE_SIZE, true, false)
  }

  /** Frame 0 and the first pages of the list are clear. */
  ghost predicate Clear(mem: Memory, b: nat) {
    ZeroWords(mem, 0, 0, TABLE_SIZE) && forall f | b <= f < b + 3 :: ZeroWords(mem, f, 0, TABLE_SIZE)
  }

  /** set_pages and set_kernel_pages, from clear pages. */
  method BuildTables(k: Kernel, pageAddr: nat) returns (pml: nat)
    requires ValidMemory(k.mem) && pageAddr % PAGE_SIZE == 0 && 0 < pageAddr
    requires pageAddr / PAGE_SIZE + NUMBER_OF_PAGES <= |k.mem| && Clear(k.mem, pageAddr / PAGE_SIZE)
    modifies k`mem, k`pdesc
    ensures pml == pageAddr / PAGE_SIZE && k.pdesc == (pml + 99) * PAGE_SIZE && |k.mem| == old(|k.mem|)
    ensures Booted(k.mem, pml) && DirectMapped(k.mem, pml)
  {
    ghost var b, m0 := pageAddr / PAGE_SIZE, k.mem;
    SetPages(k, pageAddr);
    ghost var m1 := k.mem;
    forall f | b <= f < b + 3 ensures Listed(m1, f) {
      assert ZeroWords(m0, f, 0, TABLE_SIZE);
      ClearThenListed(m0, m1, f);
    }
    pml := SetKernelPages(k, b + NUMBER_OF_PAGES);
    BootWords(m1, k.mem, b);
  }

  /** set_free_list: the list of pages is built at `pageAddr`, the kernel's tables are made from it, and paging goes
      on. If frame 0 and the first pages were clear, this establishes the paging invariant below the entries from 2
      to 510. */
  method SetFreeList(k: Kernel, pageAddr: nat)
    requires ValidMemory(k.mem) && END_PADDR_FOR_USRS / PAGE_SIZE <= |k.mem| && !k.virtToPhyFlag
    requires ValidUserAddress(k.usrPhysAddr) && pageAddr % PAGE_SIZE == 0 && 0 < pageAddr
    requires pageAddr / PAGE_SIZE + NUMBER_OF_PAGES <= |k.mem| && pageAddr / PAGE_SIZE + 99 <= FIRST_USER_FRAME
    requires Clear(k.mem, pageAddr / PAGE_SIZE)
    modifies k`mem, k`pdesc, k`pml4Shared, k`slots
    ensures k.Valid() && k.slots == Slots(2, 511) && k.Root() == pageAddr / PAGE_SIZE && k.Limit() == k.Root() + 99
    ensures Booted(k.mem, k.Root()) && DirectMapped(k.mem, k.Root())
  {
    var pml := BuildTables(k, pageAddr);
    k.pml4Shared := VIRT_BASE + pml * PAGE_SIZE;
    k.slots := Slots(2, 511);
    BootIsTree(k.mem, pml, k.Limit());
  }

  /** A clear page of the list, linked to its successor. */
  ghost predicate Listed(mem: Memory, f: nat) {
    Read(mem, f, 0) == 0 && Read(mem, f, 1) == (f + 1) * PAGE_SIZE && ZeroWords(mem, f, 2, TABLE_SIZE)
  }

  lemma ClearThenListed(m0: Memory, m1: Memory, f: nat)
    requires ZeroWords(m0, f, 0, TABLE_SIZE) && Read(m1, f, 0) == Freed(Read(m0, f, 0))
    requires Read(m1, f, 1) == (f + 1) * PAGE_SIZE && forall i: nat | i > 1 :: Read(m1, f, i) == Read(m0, f, i)
    ensures Listed(m1, f)
  {
  }

  lemma BootWords(m1: Memory, m2: Memory, b: nat)
    requires ValidMemory(m2) && 0 < b && b + 52 <= |m2| && (forall f | b <= f < b + 3 :: Listed(m1, f))
    requires ZeroWords(m1, 0, 0, TABLE_SIZE) && UpperDone(m2, b) && forall j: nat | j < 49 :: RegionDone(m2, b, j)
    requires forall f: nat, i: nat | Aside(b, f, i) && f < b + 52 ::
               Read(m2, f, i) == if (f == b || f == b + 1) && i == 0 then Marked(Read(m1, f, i)) else Read(m1, f, i)
    ensures Booted(m2, b)
  {
    assert Listed(m1, b) && Listed(m1, b + 1) && Listed(m1, b + 2);
    assert Aside(b, b, 0) && Aside(b, b, 1) && Aside(b, b + 1, 0) && Aside(b, b + 1, 1);
  }

  /** Mapping pages below one PML4 entry changes no translation below another. */
  lemma OtherSlotKept(m: Memory, m': Memory, root: nat, page: nat, start: nat, perm: nat, va: nat)
    requires PagesMapped(m, m', root, page, 1, start, perm) && !SameSlot(PageOf(va), page)
    ensures Walk(m', root, va) == Walk(m, root, va)
  {
    var n := PageOf(va);
    PathsOfPages(n, va);
    assert FrameOfPage(m', root, n) == FrameOfPage(m, root, n);
    assert RightMoved(m, m', root, page, perm, n, Right.Write) && RightMoved(m, m', root, page, perm, n, User);
  }

  lemma DirectMapKept(m: Memory, m': Memory, root: nat, page: nat, start: nat, perm: nat)
    requires PagesMapped(m, m', root, page, 1, start, perm) && SlotOfPage(page) != 511 && DirectMapped(m, root)
    ensures DirectMapped(m', root)
  {
    forall a: nat | a < 49 * REGION ensures Walk(m', root, VIRT_BASE + a) == Page(a / PAGE_SIZE, true, false) {
      DirectPath(a);
      PathDigits(VIRT_BASE + a);
      OtherSlotKept(m, m', root, page, start, perm, VIRT_BASE + a);
    }
  }

  /** A page below an entry from 2 to 510 of the PML4 table that boot leaves: exactly that page is mapped, and the
      direct map is kept. */
  method MapAfterBoot(k: Kernel, addr: nat)
    requires k.Valid() && k.slots == Slots(2, 511) && DirectMapped(k.mem, k.Root()) && 2 <= Pml4Offset(addr) < 511
    requires k.Limit() + 3 <= FIRST_USER_FRAME
    modifies k`mem, k`pdesc, k`physPdesc, k`virtToPhyFlag, k`usrPhysAddr
    ensures k.Valid() && DirectMapped(k.mem, k.Root()) && k.usrPhysAddr == NextFrameAddress(old(k.usrPhysAddr))
    ensures PagesMapped(old(k.mem), k.mem, k.Root(), PageOf(addr), 1, old(k.usrPhysAddr), USR_PERM_BITS)
  {
    ghost var m, start := k.mem, k.usrPhysAddr;
    PathDigits(addr);
    assert UserAddress(start, 1) == NextFrameAddress(UserAddress(start, 0));
    var _ := k.MemmapNotPresent(addr, PAGE_SIZE, USR_PERM_BITS);
    DirectMapKept(m, k.mem, k.Root(), PageOf(addr), start, USR_PERM_BITS);
  }

  // ---- Below entries 0 and 1

  function PageAtPath(p: Path): nat
    requires |p| == 4
  {
    ((p[0] * 512 + p[1]) * 512 + p[2]) * 512 + p[3]
  }

  lemma PathOfPageAt(p: Path)
    requires |p| == 4 && forall k | 0 <= k < 4 :: p[k] < TABLE_SIZE
    ensures PageAtPath(p) < PAGES && PagePath(PageAtPath(p)) == p
  {
    var n3 := p[0] * 512 + p[1];
    var n2 := n3 * 512 + p[2];
    var n := n2 * 512 + p[3];
    Euclid(n * PAGE_SIZE, PAGE_SIZE, n, 0);
    Euclid(n, 512, n2, p[3]);
    Euclid(n2, 512, n3, p[2]);
    Euclid(n3, 512, p[0], p[1]);
  }

  /** A request to the boot PML4 table, with room for its tables. */
  ghost predicate BootRequest(s: Pager, b: nat) {
    && Booted(s.mem, b) && b + 52 <= s.limit && s.limit + 3 <= FIRST_USER_FRAME
    && END_PADDR_FOR_USRS / PAGE_SIZE <= |s.mem| && ValidUserAddress(s.start)
  }

  /** The link in word 1 is taken for the kernel's own page-directory-pointer table. */
  lemma SlotOneTables(s: Pager, b: nat, path: Path)
    requires BootRequest(s, b) && |path| == 4 && path[0] == 1
    ensures var l := Tables(s.mem, b, s.limit, path);
            && l.ts[0] == b && l.ts[1] == b + 1
            && l.ts[2] == (if path[1] == 0 then 0 else if path[1] == 1 || path[1] == 510 then b + 2 else s.limit)
            && l.ts[3] == (if l.ts[2] == b + 2 && path[2] < 49 then TableOf(b, path[2])
                           else if l.ts[2] == s.limit then s.limit + 1 else s.limit)
            && l.limit <= s.limit + 2
            && forall f, i: nat | 0 <= f < s.limit :: Read(l.mem, f, i) == Read(s.mem, f, i)
  {
    ThreeSteps(s.mem, b, s.limit, path);
    assert Read(s.mem, 0, path[2]) == 0;
    EntryFields(b + 2, KERN_PERM_BITS);
    if path[2] < 49 {
      assert RegionDone(s.mem, b, path[2]);
      EntryFields(TableOf(b, path[2]), KERN_PERM_BITS);
    }
  }

  /** The page at index `i` of region `j` of the direct map is not the one a request at `path` writes. */
  predicate NotWritten(path: Path, j: nat, i: nat)
    requires |path| == 4
  {
    path[1] == 1 || path[1] == 510 ==> path[2] != j || path[3] != i
  }

  /** So below entry 1 the page appears a second time, below the kernel's entry 511, and every page of the direct map
      but the one written appears below entry 1. */
  lemma SlotOne(s: Pager, b: nat, addr: nat, j: nat, i: nat)
    requires BootRequest(s, b) && Pml4Offset(addr) == 1 && j < 49 && i < TABLE_SIZE && NotWritten(PathOf(addr), j, i)
    ensures Servable(s, b, addr)
    ensures var mem' := Request(s, b, addr, addr).mem;
            && Resolve(mem', b, [511] + PathOf(addr)[1..]) == Some(s.start / PAGE_SIZE)
            && Resolve(mem', b, [1, 510, j, i]) == Some(j * TABLE_SIZE + i)
  {
    var path := PathOf(addr);
    SlotOneTables(s, b, path);
    var l := Tables(s.mem, b, s.limit, path);
    var ns := l.ts + [s.start / PAGE_SIZE];
    InstallReads(l.mem, path, ns, USR_PERM_BITS);
    var mem' := Install(l.mem, path, ns, USR_PERM_BITS);
    SecondPath(mem', b, path, ns);
    DirectMapAgain(s, b, l, path, ns, j, i);
  }

  lemma SecondPath(mem: Memory, b: nat, path: Path, ns: seq<nat>)
    requires |path| == 4 && |ns| == 5 && ns[0] == b && ns[1] == b + 1
    requires forall k | 0 <= k < 5 :: ns[k] < 0x100_0000_0000
    requires Read(mem, b, 511) == Entry(b + 1, KERN_PERM_BITS)
    requires forall k | 1 <= k < 4 :: Read(mem, ns[k], path[k]) == Entry(ns[k + 1], USR_PERM_BITS)
    ensures Resolve(mem, b, [511] + path[1..]) == Some(ns[4])
  {
    var p := [511] + path[1..];
    EntryLeads(mem, p, ns, 0, KERN_PERM_BITS);
    forall k | 1 <= k < 4 ensures Leads(mem, p, ns, k) {
      EntryLeads(mem, p, ns, k, USR_PERM_BITS);
    }
    Follow(mem, b, p, ns, 0, 4);
    assert p[..4] == p;
  }

  lemma DirectMapAgain(s: Pager, b: nat, l: Lookup, path: Path, ns: seq<nat>, j: nat, i: nat)
    requires BootRequest(s, b) && |path| == 4 && (forall k | 0 <= k < 4 :: path[k] < TABLE_SIZE) && path[0] == 1
    requires l == Tables(s.mem, b, s.limit, path)
    requires |ns| == 5 && ns[..4] == l.ts && forall k | 0 <= k < 5 :: ns[k] < |s.mem|
    requires j < 49 && i < TABLE_SIZE && NotWritten(path, j, i)
    ensures Resolve(Install(l.mem, path, ns, USR_PERM_BITS), b, [1, 510, j, i]) == Some(j * TABLE_SIZE + i)
  {
    SlotOneTables(s, b, path);
    assert ns[0] == ns[..4][0] && ns[1] == ns[..4][1] && ns[2] == ns[..4][2] && ns[3] == ns[..4][3];
    var mem' := Install(l.mem, path, ns, USR_PERM_BITS);
    var p, qs := [1, 510, j, i], [b, b + 1, b + 2, TableOf(b, j), j * TABLE_SIZE + i];
    assert RegionDone(s.mem, b, j);
    InstallReads(l.mem, path, ns, USR_PERM_BITS);
    EntryLeads(mem', p, qs, 0, USR_PERM_BITS);
    EntryLeads(mem', p, qs, 1, if path[1] == 510 then USR_PERM_BITS else KERN_PERM_BITS);
    EntryLeads(mem', p, qs, 2, if ns[2] == b + 2 && path[2] == j then USR_PERM_BITS else KERN_PERM_BITS);
    EntryLeads(mem', p, qs, 3, KERN_PERM_BITS);
    Follow(mem', b, p, qs, 0, 4);
    assert p[..4] == p;
  }

  /** The mark in word 0 makes frame 0 the table below entry 0, and one of the kernel's page directories as well. So
      below entry 0 the page table of the page appears as a page of its own, below the kernel's entry 511. */
  lemma SlotZero(s: Pager, b: nat, addr: nat)
    requires BootRequest(s, b) && Pml4Offset(addr) == 0
    ensures Servable(s, b, addr)
    ensures Resolve(Request(s, b, addr, addr).mem, b, [511, 0, PdpOffset(addr), PdOffset(addr)]) == Some(s.limit + 1)
  {
    var path := PathOf(addr);
    ThreeSteps(s.mem, b, s.limit, path);
    assert Read(s.mem, 0, path[1]) == 0;
    var l := Tables(s.mem, b, s.limit, path);
    assert l.ts == [b, 0, s.limit, s.limit + 1];
    var ns := l.ts + [s.start / PAGE_SIZE];
    InstallReads(l.mem, path, ns, USR_PERM_BITS);
    var mem' := Install(l.mem, path, ns, USR_PERM_BITS);
    PageTableAsPage(mem', b, path, ns);
  }

  lemma PageTableAsPage(mem: Memory, b: nat, path: Path, ns: seq<nat>)
    requires |path| == 4 && |ns| == 5 && ns[1] == 0 && ns[2] < 0x100_0000_0000 && ns[3] < 0x100_0000_0000
    requires b + 1 < 0x100_0000_0000 && Read(mem, b, 511) == Entry(b + 1, KERN_PERM_BITS) && Read(mem, b + 1, 0) == 1
    requires Read(mem, 0, path[1]) == Entry(ns[2], USR_PERM_BITS)
    requires Read(mem, ns[2], path[2]) == Entry(ns[3], USR_PERM_BITS)
    ensures Resolve(mem, b, [511, 0, path[1], path[2]]) == Some(ns[3])
  {
    var p, qs := [511, 0, path[1], path[2]], [b, b + 1, 0, ns[2], ns[3]];
    ListWords(0);
    EntryLeads(mem, p, qs, 0, KERN_PERM_BITS);
    assert Leads(mem, p, qs, 1);
    EntryLeads(mem, p, qs, 2, USR_PERM_BITS);
    EntryLeads(mem, p, qs, 3, USR_PERM_BITS);
    Follow(mem, b, p, qs, 0, 4);
    assert p[..4] == p;
  }

  /** At boot, nothing is mapped outside the direct map. */
  lemma UnmappedAtBoot(mem: Memory, b: nat, p: Path)
    requires Booted(mem, b) && |p| == 4 && p[..2] != [511, 510]
    ensures Resolve(mem, b, p) == None
  {
    BootDepth3(mem, b, p[..3]);
    assert p[..3][..2] == p[..2];
  }

  /** A page other than the one asked for has changed. */
  lemma Unasked(m: Memory, m': Memory, b: nat, addr: nat, start: nat, n: nat)
    requires n < PAGES && PagePath(n) != PathOf(addr) && Resolve(m', b, PagePath(n)) != Resolve(m, b, PagePath(n))
    ensures !Remapped(m, m', b, PageOf(addr), 1, start)
  {
    PathsOfPages(n, addr);
    assert FrameOfPage(m', b, n) != FrameOfPage(m, b, n);
  }

  /** The first user page after boot is mapped alone if and only if it is not below entries 0 and 1. */
  lemma BootExact(s: Pager, b: nat, addr: nat)
    requires BootRequest(s, b) && Pml4Offset(addr) < 511
    ensures Servable(s, b, addr)
    ensures Remapped(s.mem, Request(s, b, addr, addr).mem, b, PageOf(addr), 1, s.start) <==> Pml4Offset(addr) >= 2
  {
    var path := PathOf(addr);
    if path[0] >= 2 {
      BootIsTree(s.mem, b, s.limit);
      RequestInTree(s, b, Slots(2, 511), addr, addr);
    } else if path[0] == 1 {
      var i := if path[3] == 0 then 1 else 0;
      SlotOne(s, b, addr, 0, i);
      var p := [1, 510, 0, i];
      assert p[..2] == [1, 510];
      UnmappedAtBoot(s.mem, b, p);
      PathOfPageAt(p);
      Unasked(s.mem, Request(s, b, addr, addr).mem, b, addr, s.start, PageAtPath(p));
    } else {
      SlotZero(s, b, addr);
      var p := [511, 0, path[1], path[2]];
      assert p[..2] == [511, 0];
      UnmappedAtBoot(s.mem, b, p);
      PathOfPageAt(p);
      Unasked(s.mem, Request(s, b, addr, addr).mem, b, addr, s.start, PageAtPath(p));
    }
  }

  /** The first NEW_PAGE after the first process is below entry 1, and GROWS_DOWN is below entry 0. */
  lemma FirstRequests(u: nat)
    requires PAGE_SIZE <= u < PML_INC && u % PAGE_SIZE == 0
    ensures Pml4Offset(Target(Cursors(u, 0), NewPage)) == 1 && Pml4Offset(u) == 0
  {
    SlotArithmetic(u, 0);
    SlotArithmetic(u, 1);
  }
}
