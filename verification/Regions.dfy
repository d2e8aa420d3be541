/** Regions of pages that may cross page-table boundaries. */
module Regions {
  import opened Options
  import opened Addressing
  import opened PageTables
  import opened PageView

  /** The number of pages that [va, va + len), widened to page boundaries, covers. */
  function RegionPages(va: nat, len: nat): nat {
    (RoundUp(va + len) - RoundDown(va)) / PAGE_SIZE
  }

  /** These are exactly the pages that hold a byte of a region that is not empty. */
  lemma RegionTouches(va: nat, len: nat, n: nat)
    requires 0 < len
    ensures va / PAGE_SIZE <= n < va / PAGE_SIZE + RegionPages(va, len)
       <==> exists b | va <= b < va + len :: b / PAGE_SIZE == n
  {
    if va / PAGE_SIZE <= n < va / PAGE_SIZE + RegionPages(va, len) {
      var b := if n == va / PAGE_SIZE then va else n * PAGE_SIZE;
      assert va <= b < va + len && b / PAGE_SIZE == n;
    }
  }

  /** The code's 32-bit size of a region below 4 GiB counts its pages. */
  lemma RegionCount(va: nat, len: nat, sz: nat)
    requires RegionPages(va, len) < 0x10_0000 && sz == (RoundUp(va + len) - RoundDown(va)) % 0x1_0000_0000
    ensures sz / PAGE_SIZE + sz % PAGE_SIZE == RegionPages(va, len)
  {
    assert (RoundUp(va + len) - RoundDown(va)) % PAGE_SIZE == 0;
  }

  /** How many page tables, page directories and page-directory-pointer tables `count` pages from `first` on span. */
  function TablesSpanned(first: nat, count: nat): nat {
    if count == 0 then 0
    else
      var last := first + count - 1;
      (last / 512 - first / 512 + 1)
      + (last / 512 / 512 - first / 512 / 512 + 1)
      + (last / 512 / 512 / 512 - first / 512 / 512 / 512 + 1)
  }

  lemma TablesSpannedMonotone(first: nat, i: nat, count: nat)
    requires i <= count
    ensures TablesSpanned(first, i) <= TablesSpanned(first, count)
  {
    if 0 < i {
      var m, n := first + i - 1, first + count - 1;
      assert m / 512 <= n / 512;
      assert m / 512 / 512 <= n / 512 / 512;
    }
  }

  /** Exactly `count` pages from `first` on have moved, to consecutive user frames from `start` on;
      they are open to user mode, and no page has lost a right. */
  ghost predicate RegionMapped(mem: Memory, mem': Memory, root: nat, first: nat, count: nat, start: nat) {
    && Remapped(mem, mem', root, first, count, start)
    && (forall n, r | first <= n < first + count :: PageGrants(mem', root, n, r))
    && (forall n, r | 0 <= n < PAGES :: PageGrants(mem, root, n, r) ==> PageGrants(mem', root, n, r))
  }

  lemma RegionGrows(m0: Memory, m1: Memory, m2: Memory, root: nat, first: nat, count: nat, start: nat,
                    next: nat, start': nat)
    requires ValidUserAddress(start) && RegionMapped(m0, m1, root, first, count, start)
    requires PagesMapped(m1, m2, root, next, 1, start', USR_PERM_BITS)
    requires next == first + count < PAGES && start' == UserAddress(start, count)
    ensures RegionMapped(m0, m2, root, first, count + 1, start)
  {
    UserFrames(start, count);
    forall n, r | 0 <= n < PAGES
      ensures PageGrants(m0, root, n, r) ==> PageGrants(m2, root, n, r)
      ensures first <= n < next + 1 ==> PageGrants(m2, root, n, r)
    {
      assert RightMoved(m1, m2, root, next, USR_PERM_BITS, n, r) && Has(USR_PERM_BITS, r);
    }
  }

  /** Page numbers advance with addresses. */
  lemma NthPage(va: nat, i: nat, addr: nat)
    requires PageOf(va) + i < PAGES && addr / PAGE_SIZE == va / PAGE_SIZE + i
    ensures PageOf(addr) == PageOf(va) + i
  {
  }

  /** What one more page adds to the tables spanned. */
  lemma SpannedStep(first: nat, i: nat)
    requires i > 0
    ensures var m, n := first + i - 1, first + i;
            TablesSpanned(first, i + 1) - TablesSpanned(first, i)
            == (if n / 512 == m / 512 then 0 else 1)
               + (if n / 512 / 512 == m / 512 / 512 then 0 else 1)
               + (if n / 512 / 512 / 512 == m / 512 / 512 / 512 then 0 else 1)
  {
    var m := first + i - 1;
    Carry(m);
    Carry(m / 512);
    Carry(m / 512 / 512);
  }

  lemma Carry(m: nat)
    ensures (m + 1) / 512 == m / 512 || (m + 1) / 512 == m / 512 + 1
  {
  }

  /** The `i`-th page of a region: its number, and how many tables it can add. */
  lemma RegionStep(mem: Memory, root: nat, va: nat, i: nat, prev: nat, addr: nat)
    requires PageOf(va) + i < PAGES && addr == va + i * PAGE_SIZE
    requires i > 0 ==> prev + PAGE_SIZE == addr && Missing(mem, root, PathOf(prev)) == 0
    ensures PageOf(addr) == PageOf(va) + i
    ensures Missing(mem, root, PathOf(addr)) <= TablesSpanned(PageOf(va), i + 1) - TablesSpanned(PageOf(va), i)
  {
    NthPage(va, i, addr);
    if i > 0 {
      NthPage(va, i - 1, prev);
      SharedPrefix(addr, prev);
      SpannedStep(PageOf(va), i);
    }
  }

  /** Every byte of a mapped region translates, for reading and writing in user mode. */
  lemma RegionBytes(mem: Memory, mem': Memory, root: nat, va: nat, len: nat, start: nat, b: nat)
    requires ValidUserAddress(start) && PageOf(va) + RegionPages(va, len) <= PAGES
    requires RegionMapped(mem, mem', root, PageOf(va), RegionPages(va, len), start)
    requires va <= b < va + len
    ensures PageOf(va) <= PageOf(b) < PageOf(va) + RegionPages(va, len)
    ensures Walk(mem', root, b) == Page(NthUserFrame(start, PageOf(b) - PageOf(va)), true, true)
  {
    var n, m := va / PAGE_SIZE, b / PAGE_SIZE;
    var count := RegionPages(va, len);
    assert n <= m < n + count;
    NthPage(va, m - n, b);
    PathsOfPages(PageOf(b), b);
    assert FrameOfPage(mem', root, PageOf(b)) == Some(NthUserFrame(start, PageOf(b) - PageOf(va)));
    assert PageGrants(mem', root, PageOf(b), Right.Write) && PageGrants(mem', root, PageOf(b), User);
  }

  /** At most 4096 pages share no frame; one page more and the first and last are the same memory. */
  lemma RegionFrames(mem: Memory, mem': Memory, root: nat, first: nat, count: nat, start: nat)
    requires ValidUserAddress(start) && first + count <= PAGES && RegionMapped(mem, mem', root, first, count, start)
    ensures (forall m, n | first <= m < n < first + count :: FrameOfPage(mem', root, m) != FrameOfPage(mem', root, n))
            <==> count <= 0x1000
  {
    forall m, n | first <= m < n < first + count
      ensures n < m + 0x1000 ==> FrameOfPage(mem', root, m) != FrameOfPage(mem', root, n)
      ensures n == m + 0x1000 ==> FrameOfPage(mem', root, m) == FrameOfPage(mem', root, n)
    {
      UserFramesDistinct(start, m - first, n - first);
    }
    if count > 0x1000 {
      assert FrameOfPage(mem', root, first) == FrameOfPage(mem', root, first + 0x1000);
    }
  }
}
