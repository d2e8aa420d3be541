/** Boot-time paging: the list of free pages, and the direct map of low physical memory at VIRT_BASE.
    Nothing is assumed of what memory holds before. */
module Boot {
  import opened Addressing
  import opened PageTables
  import opened PageInstall
  import opened PageView
  import opened KernelPaging

  const NUMBER_OF_PAGES: nat := 24576
  const NUM_PT: nat := 47
  const REGION: nat := 0x20_0000  // what one page table maps

  // ---- The list of free pages: word 1 of each page points to the next

  function NextField(f: nat, end: nat): nat { if f + 1 < end then (f + 1) * PAGE_SIZE else 0 }

  /** Frames `first` up to `end` are linked in order. */
  ghost predicate FreeList(mem: Memory, first: nat, end: nat) {
    end <= |mem| && forall f | first <= f < end :: Read(mem, f, 1) == NextField(f, end)
  }

  /** The mark in bit 0 of a page's word 0: cleared, and set. */
  function Freed(w: nat): (r: nat)
    ensures r % 2 == 0 && r / 2 == w / 2
  {
    w - w % 2
  }

  function Marked(w: nat): (r: nat)
    ensures r % 2 == 1 && r / 2 == w / 2
  {
    w - w % 2 + 1
  }

  /** set_pages */
  method SetPages(k: Kernel, pageAddr: nat)
    requires ValidMemory(k.mem) && pageAddr % PAGE_SIZE == 0 && pageAddr / PAGE_SIZE + NUMBER_OF_PAGES <= |k.mem|
    modifies k`mem, k`pdesc
    ensures ValidMemory(k.mem) && |k.mem| == old(|k.mem|) && k.pdesc == pageAddr
    ensures FreeList(k.mem, pageAddr / PAGE_SIZE, pageAddr / PAGE_SIZE + NUMBER_OF_PAGES)
    ensures forall f: nat, i: nat | !(pageAddr / PAGE_SIZE <= f < pageAddr / PAGE_SIZE + NUMBER_OF_PAGES) || i > 1 ::
              Read(k.mem, f, i) == old(Read(k.mem, f, i))
    ensures forall f | pageAddr / PAGE_SIZE <= f < pageAddr / PAGE_SIZE + NUMBER_OF_PAGES ::
              Read(k.mem, f, 0) == if f == pageAddr / PAGE_SIZE + NUMBER_OF_PAGES - 1 then old(Read(k.mem, f, 0))
                                   else Freed(old(Read(k.mem, f, 0)))
  {
    var head := pageAddr;
    ghost var first := pageAddr / PAGE_SIZE;
    k.pdesc := pageAddr;
    var i := 0;
    while i < NUMBER_OF_PAGES
      invariant 0 <= i <= NUMBER_OF_PAGES && ValidMemory(k.mem) && |k.mem| == old(|k.mem|)
      invariant i < NUMBER_OF_PAGES ==> k.pdesc == (first + i) * PAGE_SIZE
      invariant forall f | first <= f < first + i :: Read(k.mem, f, 1) == NextField(f, first + NUMBER_OF_PAGES)
      invariant forall f: nat, j: nat | !(first <= f < first + i) || j > 1 ::
                  Read(k.mem, f, j) == old(Read(k.mem, f, j))
      invariant forall f | first <= f < first + i ::
                  Read(k.mem, f, 0) == if f == first + NUMBER_OF_PAGES - 1 then old(Read(k.mem, f, 0))
                                       else Freed(old(Read(k.mem, f, 0)))
    {
      var f := k.pdesc / PAGE_SIZE;
      if i < NUMBER_OF_PAGES - 1 {
        k.mem := Store(k.mem, f, 1, k.pdesc + PAGE_SIZE);
      } else {
        k.mem := Store(k.mem, f, 1, 0);
        i := i + 1;
        break;
      }
      k.mem := Store(k.mem, f, 0, Freed(k.mem[f][0]));  // pd_free = FREE
      k.pdesc := k.mem[f][1];
      i := i + 1;
    }
    k.pdesc := head;
  }

  /** get_page: takes the first page off the list, without clearing it. */
  method GetPage(k: Kernel, ghost end: nat) returns (head: nat)
    requires ValidMemory(k.mem) && k.pdesc % PAGE_SIZE == 0 && k.pdesc / PAGE_SIZE < end
    requires FreeList(k.mem, k.pdesc / PAGE_SIZE, end)
    modifies k`mem, k`pdesc
    ensures ValidMemory(k.mem) && |k.mem| == old(|k.mem|)
    ensures head == old(k.pdesc) && k.pdesc == NextField(head / PAGE_SIZE, end)
    ensures FreeList(k.mem, head / PAGE_SIZE + 1, end)
    ensures forall f: nat, i: nat :: Read(k.mem, f, i)
              == if f == head / PAGE_SIZE && i == 0 then Marked(old(Read(k.mem, f, i))) else old(Read(k.mem, f, i))
  {
    head := k.pdesc;
    var f := head / PAGE_SIZE;
    k.mem := Store(k.mem, f, 0, Marked(k.mem[f][0]));  // pd_free = IN_USE
    k.pdesc := k.mem[f][1];
  }

  // ---- Kernel page tables

  /** A page table that maps 512 pages from `phys` on for the kernel. */
  function DirectTable(phys: nat): (t: Table)
    ensures |t| == TABLE_SIZE && forall i | 0 <= i < TABLE_SIZE :: t[i] == phys + i * PAGE_SIZE + KERN_PERM_BITS
  {
    seq(TABLE_SIZE, i => phys + i * PAGE_SIZE + KERN_PERM_BITS)
  }

  /** The loop that fills a page table, and the three writes that link it in, as set_initial_addr, set_end_addr,
      set_kpage_tables and set_new_kpts repeat them. Tables are given by frame. */
  method MapRegion(k: Kernel, pt: nat, virt: nat, pdp: nat, pd: nat, pml: nat, phys: nat)
    requires ValidMemory(k.mem) && pt < |k.mem| && pdp < |k.mem| && pd < |k.mem| && pml < |k.mem|
    requires pt != pd && pt != pdp && pt != pml && pd != pdp && pd != pml && pdp != pml
    requires virt % REGION == 0
    modifies k`mem
    ensures ValidMemory(k.mem) && |k.mem| == old(|k.mem|) && k.mem[pt] == DirectTable(phys)
    ensures Read(k.mem, pd, PdOffset(virt)) == Entry(pt, KERN_PERM_BITS)
    ensures Read(k.mem, pdp, PdpOffset(virt)) == Entry(pd, KERN_PERM_BITS)
    ensures Read(k.mem, pml, Pml4Offset(virt)) == Entry(pdp, KERN_PERM_BITS)
    ensures forall f: nat, i: nat | f != pt && !(f == pd && i == PdOffset(virt)) && !(f == pdp && i == PdpOffset(virt))
                                    && !(f == pml && i == Pml4Offset(virt)) ::
              Read(k.mem, f, i) == old(Read(k.mem, f, i))
  {
    var i, v, p := 0, virt, phys;
    while i < TABLE_SIZE
      invariant 0 <= i <= TABLE_SIZE && v == virt + i * PAGE_SIZE && p == phys + i * PAGE_SIZE
      invariant ValidMemory(k.mem) && |k.mem| == old(|k.mem|)
      invariant forall j | 0 <= j < i :: k.mem[pt][j] == phys + j * PAGE_SIZE + KERN_PERM_BITS
      invariant forall f: nat, j: nat | f != pt :: Read(k.mem, f, j) == old(Read(k.mem, f, j))
    {
      FirstPages(virt, i);
      k.mem := Store(k.mem, pt, PtOffset(v), p + KERN_PERM_BITS);
      v, p, i := v + PAGE_SIZE, p + PAGE_SIZE, i + 1;
    }
    k.mem := Store(k.mem, pd, PdOffset(virt), pt * PAGE_SIZE + KERN_PERM_BITS);
    k.mem := Store(k.mem, pdp, PdpOffset(virt), pd * PAGE_SIZE + KERN_PERM_BITS);
    k.mem := Store(k.mem, pml, Pml4Offset(virt), pdp * PAGE_SIZE + KERN_PERM_BITS);
  }

  lemma FirstPages(virt: nat, i: nat)
    requires virt % REGION == 0 && i < 512
    ensures PtOffset(virt + i * PAGE_SIZE) == i
  {
    var q := virt / REGION;
    Euclid(virt + i * PAGE_SIZE, PAGE_SIZE, 512 * q + i, 0);
    Euclid(512 * q + i, 512, q, i);
  }

  /** The offsets of an address in the direct map. */
  lemma DirectPath(a: nat)
    requires a < 0x4000_0000
    ensures PathOf(VIRT_BASE + a) == [511, 510, a / PAGE_SIZE / 512, a / PAGE_SIZE % 512]
  {
    var n := a / PAGE_SIZE;
    Euclid(VIRT_BASE + a, PAGE_SIZE, 0xF_FFFF_FFF8_0000 + n, a % PAGE_SIZE);
    Euclid(0xF_FFFF_FFF8_0000 + n, 512, 0x7FF_FFFF_FC00 + n / 512, n % 512);
    Euclid(0x7FF_FFFF_FC00 + n / 512, 512, 0x3_FFFF_FFFE, n / 512);
    Euclid(0x3_FFFF_FFFE, 512, 0x1FF_FFFF, 510);
  }

  // With the PML4 table in frame b, get_page puts the other tables right behind it.

  /** The frame of the page table for the `j`-th 2-MByte region. */
  function TableOf(b: nat, j: nat): nat {
    if j == 0 then b + 4 else if j == 1 then b + 3 else b + 3 + j
  }

  ghost predicate UpperDone(mem: Memory, b: nat) {
    && Read(mem, b, 511) == Entry(b + 1, KERN_PERM_BITS)
    && Read(mem, b + 1, 510) == Entry(b + 2, KERN_PERM_BITS)
  }

  /** Region `j` of physical memory is mapped one to one. */
  ghost predicate RegionDone(mem: Memory, b: nat, j: nat) {
    && Read(mem, b + 2, j) == Entry(TableOf(b, j), KERN_PERM_BITS)
    && forall i | 0 <= i < TABLE_SIZE :: Read(mem, TableOf(b, j), i) == j * REGION + i * PAGE_SIZE + KERN_PERM_BITS
  }

  /** The words outside the direct map's tables, and the entries of the upper tables that the direct map does not
      use. */
  predicate Aside(b: nat, f: nat, i: nat) {
    f < b || f >= b + 52 || (f == b && i != 511) || (f == b + 1 && i != 510) || (f == b + 2 && i >= 49)
  }

  /** MapRegion, applied to region `j` of the direct map. */
  method MapDirect(k: Kernel, ghost b: nat, pt: nat, pdp: nat, pd: nat, pml: nat, base: nat, ghost j: nat)
    requires ValidMemory(k.mem) && b + 52 <= |k.mem| && j < 49 && base == j * REGION
    requires pml == b && pdp == b + 1 && pd == b + 2 && pt == TableOf(b, j)
    modifies k`mem
    ensures ValidMemory(k.mem) && |k.mem| == old(|k.mem|)
    ensures UpperDone(k.mem, b) && RegionDone(k.mem, b, j)
    ensures forall i: nat | i < 49 && i != j && old(RegionDone(k.mem, b, i)) :: RegionDone(k.mem, b, i)
    ensures forall f: nat, i: nat | Aside(b, f, i) :: Read(k.mem, f, i) == old(Read(k.mem, f, i))
  {
    DirectPath(base);
    assert base / PAGE_SIZE / 512 == j;
    var virt := VIRT_BASE + base;
    assert virt % REGION == 0;
    MapRegion(k, pt, virt, pdp, pd, pml, base);
  }

  /** set_end_addr: the next region above the kernel, and one more page off the list. */
  method SetEndAddr(k: Kernel, ghost b: nat, pt: nat, pdp: nat, pd: nat, pml: nat, endBaseAddr: nat,
                    ghost c: nat, ghost end: nat)
    returns (endBaseAddr': nat)
    requires ValidMemory(k.mem) && c < NUM_PT && endBaseAddr == (c + 2) * REGION
    requires pml == b && pdp == b + 1 && pd == b + 2 && pt == TableOf(b, c + 2)
    requires k.pdesc == (b + 52 + c) * PAGE_SIZE && b + 99 < end && FreeList(k.mem, b + 52 + c, end)
    requires UpperDone(k.mem, b) && RegionDone(k.mem, b, 0) && forall j: nat | 2 <= j < c + 2 :: RegionDone(k.mem, b, j)
    modifies k`mem, k`pdesc
    ensures ValidMemory(k.mem) && |k.mem| == old(|k.mem|) && endBaseAddr' == (c + 3) * REGION
    ensures k.pdesc == (b + 53 + c) * PAGE_SIZE && FreeList(k.mem, b + 53 + c, end)
    ensures UpperDone(k.mem, b) && RegionDone(k.mem, b, 0) && forall j: nat | 2 <= j < c + 3 :: RegionDone(k.mem, b, j)
    ensures forall f: nat, i: nat | Aside(b, f, i) && f < b + 52 :: Read(k.mem, f, i) == old(Read(k.mem, f, i))
  {
    MapDirect(k, b, pt, pdp, pd, pml, endBaseAddr, c + 2);
    endBaseAddr' := endBaseAddr + REGION;
    ghost var m1 := k.mem;
    var ptShared := GetPage(k, end);
    forall j: nat | j < 49 && RegionDone(m1, b, j) ensures RegionDone(k.mem, b, j) {}
  }

  /** get_page, with the page named by its frame. */
  method TakeFrame(k: Kernel, ghost f: nat, ghost end: nat) returns (t: nat)
    requires ValidMemory(k.mem) && k.pdesc == f * PAGE_SIZE && f + 1 < end && FreeList(k.mem, f, end)
    modifies k`mem, k`pdesc
    ensures ValidMemory(k.mem) && |k.mem| == old(|k.mem|)
    ensures t == f && k.pdesc == (f + 1) * PAGE_SIZE && FreeList(k.mem, f + 1, end)
    ensures forall g: nat, i: nat :: Read(k.mem, g, i)
              == if g == f && i == 0 then Marked(old(Read(k.mem, g, i))) else old(Read(k.mem, g, i))
  {
    var page := GetPage(k, end);
    t := page / PAGE_SIZE;
  }

  /** The get_page calls of set_kpage_tables. */
  method TakeTables(k: Kernel, ghost b: nat, ghost end: nat)
    returns (pdp: nat, pd: nat, pt: nat, ptInit: nat, ptMax: seq<nat>)
    requires ValidMemory(k.mem) && k.pdesc == (b + 1) * PAGE_SIZE && b + 99 < end && FreeList(k.mem, b + 1, end)
    modifies k`mem, k`pdesc
    ensures ValidMemory(k.mem) && |k.mem| == old(|k.mem|)
    ensures k.pdesc == (b + 52) * PAGE_SIZE && FreeList(k.mem, b + 52, end)
    ensures pdp == b + 1 && pd == b + 2 && pt == TableOf(b, 1) && ptInit == TableOf(b, 0)
    ensures |ptMax| == NUM_PT && forall c | 0 <= c < NUM_PT :: ptMax[c] == TableOf(b, c + 2)
    ensures forall f: nat, i: nat :: Read(k.mem, f, i)
              == if b < f < b + 52 && i == 0 then Marked(old(Read(k.mem, f, i))) else old(Read(k.mem, f, i))
  {
    pdp := TakeFrame(k, b + 1, end);
    pd := TakeFrame(k, b + 2, end);
    pt := TakeFrame(k, b + 3, end);
    ptInit := TakeFrame(k, b + 4, end);
    ptMax := [];
    var count := 0;
    while count < NUM_PT
      invariant 0 <= count <= NUM_PT && |ptMax| == count
      invariant ValidMemory(k.mem) && |k.mem| == old(|k.mem|)
      invariant k.pdesc == (b + 5 + count) * PAGE_SIZE && FreeList(k.mem, b + 5 + count, end)
      invariant forall c | 0 <= c < count :: ptMax[c] == TableOf(b, c + 2)
      invariant forall f: nat, i: nat :: Read(k.mem, f, i)
                  == if b < f < b + 5 + count && i == 0 then Marked(old(Read(k.mem, f, i))) else old(Read(k.mem, f, i))
    {
      var t := TakeFrame(k, b + 5 + count, end);
      ptMax := ptMax + [t];
      count := count + 1;
    }
  }

  /** set_kpage_tables, from the pages that follow the PML4 table in the list */
  method SetKpageTables(k: Kernel, pml: nat, ghost end: nat)
    requires ValidMemory(k.mem) && k.pdesc == (pml + 1) * PAGE_SIZE
    requires pml + 99 < end && FreeList(k.mem, pml + 1, end)
    modifies k`mem, k`pdesc
    ensures ValidMemory(k.mem) && |k.mem| == old(|k.mem|)
    ensures k.pdesc == (pml + 99) * PAGE_SIZE && FreeList(k.mem, pml + 99, end)
    ensures UpperDone(k.mem, pml) && forall j: nat | j < 49 :: RegionDone(k.mem, pml, j)
    ensures forall f: nat, i: nat | Aside(pml, f, i) && f < pml + 52 :: Read(k.mem, f, i)
              == if f == pml + 1 && i == 0 then Marked(old(Read(k.mem, f, i))) else old(Read(k.mem, f, i))
  {
    var pdp, pd, pt, ptInit, ptMax := TakeTables(k, pml, end);
    MapDirect(k, pml, ptInit, pdp, pd, pml, 0, 0);
    var endBaseAddr := PHYSBASE + TABLE_SIZE * PAGE_SIZE;
    var count := 0;
    while count < NUM_PT
      invariant 0 <= count <= NUM_PT && endBaseAddr == (count + 2) * REGION
      invariant ValidMemory(k.mem) && |k.mem| == old(|k.mem|)
      invariant k.pdesc == (pml + 52 + count) * PAGE_SIZE && FreeList(k.mem, pml + 52 + count, end)
      invariant UpperDone(k.mem, pml) && RegionDone(k.mem, pml, 0)
      invariant forall j: nat | 2 <= j < count + 2 :: RegionDone(k.mem, pml, j)
      invariant forall f: nat, i: nat | Aside(pml, f, i) && f < pml + 52 :: Read(k.mem, f, i)
                  == if f == pml + 1 && i == 0 then Marked(old(Read(k.mem, f, i))) else old(Read(k.mem, f, i))
    {
      endBaseAddr := SetEndAddr(k, pml, ptMax[count], pdp, pd, pml, endBaseAddr, count, end);
      count := count + 1;
    }
    MapDirect(k, pml, pt, pdp, pd, pml, PHYSBASE, 1);
  }

  /** Four kernel entries lead to frame `n`, for the kernel only. */
  lemma KernelWalk(mem: Memory, pml: nat, va: nat, pdp: nat, pd: nat, pt: nat, n: nat)
    requires pdp < 0x100_0000_0000 && pd < 0x100_0000_0000 && pt < 0x100_0000_0000 && n < 0x100_0000_0000
    requires Read(mem, pml, PathOf(va)[0]) == Entry(pdp, KERN_PERM_BITS)
    requires Read(mem, pdp, PathOf(va)[1]) == Entry(pd, KERN_PERM_BITS)
    requires Read(mem, pd, PathOf(va)[2]) == Entry(pt, KERN_PERM_BITS)
    requires Read(mem, pt, PathOf(va)[3]) == Entry(n, KERN_PERM_BITS)
    ensures Walk(mem, pml, va) == Page(n, true, false)
  {
    var q := PathOf(va);
    FollowEntries(mem, pml, q, pdp, pd, pt, KERN_PERM_BITS);
    assert q[..4] == q;
    EntryFields(n, KERN_PERM_BITS);
    EntryFields(pdp, KERN_PERM_BITS);
    EntryFields(pd, KERN_PERM_BITS);
    EntryFields(pt, KERN_PERM_BITS);
    assert !Has(EntryOn(mem, pml, q[..4]), User);
  }

  /** The direct map: every byte below 49 regions translates to itself, for the kernel only. */
  lemma DirectMap(mem: Memory, b: nat, a: nat)
    requires UpperDone(mem, b) && (forall j: nat | j < 49 :: RegionDone(mem, b, j)) && b + 52 <= 0x100_0000_0000
    requires a < 49 * REGION
    ensures Walk(mem, b, VIRT_BASE + a) == Page(a / PAGE_SIZE, true, false)
  {
    var n := a / PAGE_SIZE;
    var j := n / 512;
    DirectPath(a);
    assert RegionDone(mem, b, j);
    assert j * REGION + n % 512 * PAGE_SIZE + KERN_PERM_BITS == Entry(n, KERN_PERM_BITS);
    KernelWalk(mem, b, VIRT_BASE + a, b + 1, b + 2, TableOf(b, j), n);
  }

  /** set_kernel_pages: from any list of at least 100 free pages, a PML4 table whose direct map is exact. What the
      upper tables held before stays in them, with the mark and the link of a page of the list. */
  method SetKernelPages(k: Kernel, ghost end: nat) returns (pml: nat)
    requires ValidMemory(k.mem) && k.pdesc % PAGE_SIZE == 0
    requires k.pdesc / PAGE_SIZE + 99 < end && FreeList(k.mem, k.pdesc / PAGE_SIZE, end)
    modifies k`mem, k`pdesc
    ensures ValidMemory(k.mem) && |k.mem| == old(|k.mem|) && pml == old(k.pdesc) / PAGE_SIZE
    ensures k.pdesc == (pml + 99) * PAGE_SIZE && FreeList(k.mem, pml + 99, end)
    ensures UpperDone(k.mem, pml) && forall j: nat | j < 49 :: RegionDone(k.mem, pml, j)
    ensures forall a: nat | a < 49 * REGION :: Walk(k.mem, pml, VIRT_BASE + a) == Page(a / PAGE_SIZE, true, false)
    ensures forall f: nat, i: nat | Aside(pml, f, i) && f < pml + 52 :: Read(k.mem, f, i)
              == if (f == pml || f == pml + 1) && i == 0 then Marked(old(Read(k.mem, f, i))) else old(Read(k.mem, f, i))
  {
    var head := GetPage(k, end);
    pml := head / PAGE_SIZE;
    SetKpageTables(k, pml, end);
    forall a: nat | a < 49 * REGION ensures Walk(k.mem, pml, VIRT_BASE + a) == Page(a / PAGE_SIZE, true, false) {
      DirectMap(k.mem, pml, a);
    }
  }

  // ---- Kernel tables anywhere

  /** The offsets of the pages behind a 2-MByte boundary. */
  lemma RegionPath(virt: nat, i: nat)
    requires virt % REGION == 0 && i < TABLE_SIZE
    ensures PathOf(virt + i * PAGE_SIZE) == [Pml4Offset(virt), PdpOffset(virt), PdOffset(virt), i]
  {
    FirstPages(virt, 0);
    FirstPages(virt, i);
    SameTable(virt, i, virt + i * PAGE_SIZE);
    var q := PathOf(virt + i * PAGE_SIZE);
    assert q == q[..3] + [q[3]] && PathOf(virt)[..3] == [Pml4Offset(virt), PdpOffset(virt), PdOffset(virt)];
  }

  /** A filled page table below a path of linked tables maps its 512 pages one to one, for the kernel only. */
  lemma RegionWalk(mem: Memory, pml: nat, pdp: nat, pd: nat, pt: nat, virt: nat, phys: nat, i: nat)
    requires virt % REGION == 0 && phys % PAGE_SIZE == 0 && phys / PAGE_SIZE + i < 0x100_0000_0000 && i < TABLE_SIZE
    requires pdp < 0x100_0000_0000 && pd < 0x100_0000_0000 && pt < 0x100_0000_0000
    requires Read(mem, pml, Pml4Offset(virt)) == Entry(pdp, KERN_PERM_BITS)
    requires Read(mem, pdp, PdpOffset(virt)) == Entry(pd, KERN_PERM_BITS)
    requires Read(mem, pd, PdOffset(virt)) == Entry(pt, KERN_PERM_BITS)
    requires Read(mem, pt, i) == phys + i * PAGE_SIZE + KERN_PERM_BITS
    ensures Walk(mem, pml, virt + i * PAGE_SIZE) == Page(phys / PAGE_SIZE + i, true, false)
  {
    RegionPath(virt, i);
    KernelWalk(mem, pml, virt + i * PAGE_SIZE, pdp, pd, pt, phys / PAGE_SIZE + i);
  }

  /** set_new_kpts, for any 2-MByte start: 512 pages are mapped one to one, for the kernel only. */
  method SetNewKpts(k: Kernel, ptk: nat, virt: nat, pdp: nat, pd: nat, pml: nat, phys: nat)
    requires ValidMemory(k.mem) && ptk < |k.mem| && pdp < |k.mem| && pd < |k.mem| && pml < |k.mem|
    requires ptk != pd && ptk != pdp && ptk != pml && pd != pdp && pd != pml && pdp != pml
    requires virt % REGION == 0 && phys % PAGE_SIZE == 0 && phys / PAGE_SIZE + TABLE_SIZE <= 0x100_0000_0000
    modifies k`mem, k`pml4Shared
    ensures ValidMemory(k.mem) && |k.mem| == old(|k.mem|) && k.pml4Shared == Ptr(pml)
    ensures forall i | 0 <= i < TABLE_SIZE ::
              Walk(k.mem, pml, virt + i * PAGE_SIZE) == Page(phys / PAGE_SIZE + i, true, false)
  {
    MapRegion(k, ptk, virt, pdp, pd, pml, phys);
    k.pml4Shared := VIRT_BASE + pml * PAGE_SIZE;
    forall i | 0 <= i < TABLE_SIZE
      ensures Walk(k.mem, pml, virt + i * PAGE_SIZE) == Page(phys / PAGE_SIZE + i, true, false)
    {
      RegionWalk(k.mem, pml, pdp, pd, ptk, virt, phys, i);
    }
  }
}
