/** The effect of an installation seen page by page over the whole 48-bit address space. */
module PageView {
  import opened Options
  import opened Addressing
  import opened PageTables
  import opened PageInstall

  /** How many of the three tables below the PML4 table are missing for `path`. */
  function Missing(mem: Memory, root: nat, path: Path): (n: nat)
    requires |path| == 4
  {
    (if Resolve(mem, root, path[..1]).None? then 1 else 0)
    + (if Resolve(mem, root, path[..2]).None? then 1 else 0)
    + (if Resolve(mem, root, path[..3]).None? then 1 else 0)
  }

  lemma MissingSibling(mem: Memory, root: nat, path: Path, path': Path)
    requires |path| == |path'| == 4 && path[..3] == path'[..3]
    ensures Missing(mem, root, path) == Missing(mem, root, path')
  {
    assert path[..1] == path[..3][..1] == path'[..1];
    assert path[..2] == path[..3][..2] == path'[..2];
  }

  function PagePath(n: nat): Path { PathOf(AddressOf(n)) }

  /** The frame that page `n` is mapped to. */
  function FrameOfPage(mem: Memory, root: nat, n: nat): Option<nat> {
    Resolve(mem, root, PagePath(n))
  }

  ghost predicate PageGrants(mem: Memory, root: nat, n: nat, r: Right) {
    Grants(mem, root, PagePath(n), r)
  }

  /** Pages with the same PML4 entry. */
  predicate SameSlot(m: nat, n: nat) { SlotOfPage(m) == SlotOfPage(n) }

  function SlotOfPage(n: nat): nat { n / 512 / 512 / 512 }

  /** The next user frame's address is page-aligned and in range. */
  predicate ValidUserAddress(start: nat) {
    START_PADDR_FOR_USRS <= start < END_PADDR_FOR_USRS && start % PAGE_SIZE == 0
  }

  /** get_user_phys_addr(0) advances to this address; the frames are used in a circle. */
  function NextFrameAddress(a: nat): nat {
    if a + PAGE_SIZE < END_PADDR_FOR_USRS then a + PAGE_SIZE else START_PADDR_FOR_USRS
  }

  /** The address of the next user frame after `k` frames have been handed out from `start` on. */
  function UserAddress(start: nat, k: nat): nat {
    if k == 0 then start else NextFrameAddress(UserAddress(start, k - 1))
  }

  /** The `k`-th user frame handed out from `start` on. */
  function NthUserFrame(start: nat, k: nat): nat { UserAddress(start, k) / PAGE_SIZE }

  lemma {:induction false} UserFrames(start: nat, k: nat)
    requires ValidUserAddress(start)
    ensures ValidUserAddress(UserAddress(start, k)) && IsUserFrame(NthUserFrame(start, k))
    ensures NthUserFrame(start, k) == 0x5000 + (start / PAGE_SIZE + k) % 0x1000
  {
    if k > 0 { UserFrames(start, k - 1); }
  }

  /** Any 4096 consecutive user frames are pairwise distinct, and the 4097th is the first again. */
  lemma UserFramesDistinct(start: nat, j: nat, k: nat)
    requires ValidUserAddress(start) && j < k
    ensures k < j + 0x1000 ==> NthUserFrame(start, j) != NthUserFrame(start, k)
    ensures k == j + 0x1000 ==> NthUserFrame(start, j) == NthUserFrame(start, k)
  {
    UserFrames(start, j);
    UserFrames(start, k);
  }

  lemma PathsOfPages(m: nat, va: nat)
    requires m < PAGES
    ensures PagePath(m) == PathOf(va) <==> m == PageOf(va)
    ensures PagePath(m)[0] == PathOf(va)[0] <==> SameSlot(m, PageOf(va))
    ensures PageOf(AddressOf(m)) == m
  {
    assert PageOf(AddressOf(m)) == m;
    SharedPrefix(AddressOf(m), va);
    assert PagePath(m)[..1] == [PagePath(m)[0]] && PathOf(va)[..1] == [PathOf(va)[0]];
  }

  /** `count` pages from page `first` on map to consecutive user frames from `start` on;
      every other page keeps its frame or its absence. */
  ghost predicate Remapped(mem: Memory, mem': Memory, root: nat, first: nat, count: nat, start: nat)
  {
    forall n | 0 <= n < PAGES ::
      FrameOfPage(mem', root, n)
      == if first <= n < first + count then Some(NthUserFrame(start, n - first)) else FrameOfPage(mem, root, n)
  }

  /** Right `r` of page `n` after `page` has been mapped with permissions `perm`: a right in `perm` is never lost,
      a right not in `perm` is lost in the whole PML4 slot, other slots keep theirs. */
  ghost predicate RightMoved(mem: Memory, mem': Memory, root: nat, page: nat, perm: nat, n: nat, r: Right) {
    && (Has(perm, r) && PageGrants(mem, root, n, r) ==> PageGrants(mem', root, n, r))
    && (!Has(perm, r) && SameSlot(n, page) ==> !PageGrants(mem', root, n, r))
    && (!SameSlot(n, page) ==> PageGrants(mem', root, n, r) == PageGrants(mem, root, n, r))
  }

  ghost predicate RightsMoved(mem: Memory, mem': Memory, root: nat, page: nat, perm: nat) {
    forall n, r | 0 <= n < PAGES :: RightMoved(mem, mem', root, page, perm, n, r)
  }

  lemma InstalledPage(mem: Memory, root: nat, va: nat, ns: seq<nat>, perm: nat, limit: nat, slots: set<nat>, start: nat)
    requires Installable(mem, root, PathOf(va), ns, perm, limit, slots)
    requires (forall k | 0 <= k < 4 :: ns[k] < limit) && ValidUserAddress(start) && ns[4] == start / PAGE_SIZE
    ensures var mem' := Install(mem, PathOf(va), ns, perm);
            && Tree(mem', root, limit, slots) && Located(mem', root, PathOf(va), ns[..4])
            && Missing(mem', root, PathOf(va)) == 0
            && PagesMapped(mem, mem', root, PageOf(va), 1, start, perm)
  {
    var mem' := Install(mem, PathOf(va), ns, perm);
    UserFrames(start, 0);
    TreeAfterInstall(mem, root, PathOf(va), ns, perm, limit, slots);
    LocatedAfterInstall(mem, root, PathOf(va), ns, perm, limit, slots);
    forall n | 0 <= n < PAGES
      ensures FrameOfPage(mem', root, n)
           == if n == PageOf(va) then Some(ns[4]) else FrameOfPage(mem, root, n)
    {
      PathsOfPages(n, va);
      ResolveAfterInstall(mem, root, PathOf(va), ns, perm, limit, slots, PagePath(n));
    }
    forall n, r | 0 <= n < PAGES
      ensures RightMoved(mem, mem', root, PageOf(va), perm, n, r)
      ensures n == PageOf(va) ==> PageGrants(mem', root, n, r) == Has(perm, r)
    {
      PathsOfPages(n, va);
      GrantsAfterInstall(mem, root, PathOf(va), ns, perm, limit, slots, PagePath(n), r);
    }
  }

  /** Pages of one page table: consecutive page numbers, same upper indices. */
  lemma SameTable(va: nat, i: nat, vb: nat)
    requires PtOffset(va) + i < TABLE_SIZE && vb == va + i * PAGE_SIZE
    ensures PageOf(vb) == PageOf(va) + i
    ensures PathOf(vb)[..3] == PathOf(va)[..3]
    ensures SameSlot(PageOf(vb), PageOf(va))
  {
    var n := va / PAGE_SIZE;
    assert vb / PAGE_SIZE == n + i;
    SameTableNumbers(n, i);
    SharedPrefix(vb, va);
  }

  /** The page before has the same tables unless a page table begins in between. */
  lemma SamePathBefore(addr: nat)
    requires PAGE_SIZE <= addr
    ensures PtOffset(addr) > 0 ==> PathOf(addr - PAGE_SIZE)[..3] == PathOf(addr)[..3]
  {
    if PtOffset(addr) > 0 {
      assert (addr - PAGE_SIZE) / PAGE_SIZE == addr / PAGE_SIZE - 1;
      SameTable(addr - PAGE_SIZE, 1, addr);
    }
  }

  lemma SameTableNumbers(n: nat, i: nat)
    requires n % 512 + i < 512
    ensures (n + i) / 512 == n / 512
    ensures (n + i) % PAGES == n % PAGES + i
    ensures (n % PAGES + i) / 512 == n % PAGES / 512
  {
    var q, r := n / 512, n % 512;
    assert n == q * 512 + r;
    var q' := q % 0x800_0000;
    assert n % PAGES == q' * 512 + r;
    assert (n + i) % PAGES == q' * 512 + (r + i);
  }

  ghost predicate SameRights(mem: Memory, mem': Memory, root: nat) {
    forall n, r | 0 <= n < PAGES :: PageGrants(mem', root, n, r) == PageGrants(mem, root, n, r)
  }

  /** Everything memmap promises of `count` pages from `first` on, given frames from `start` on. */
  ghost predicate PagesMapped(mem: Memory, mem': Memory, root: nat, first: nat, count: nat, start: nat, perm: nat)
  {
    && Remapped(mem, mem', root, first, count, start)
    && (if count > 0 then RightsMoved(mem, mem', root, first, perm) else SameRights(mem, mem', root))
    && forall n, r | first <= n < first + count :: PageGrants(mem', root, n, r) == Has(perm, r)
  }

  lemma OnePageMore(m0: Memory, m1: Memory, m2: Memory, root: nat, first: nat, count: nat, start: nat, perm: nat,
                    next: nat, start': nat)
    requires ValidUserAddress(start) && PagesMapped(m0, m1, root, first, count, start, perm)
    requires PagesMapped(m1, m2, root, next, 1, start', perm)
    requires next == first + count && start' == UserAddress(start, count) && SameSlot(next, first) && next < PAGES
    ensures PagesMapped(m0, m2, root, first, count + 1, start, perm)
  {
    UserFrames(start, count);
    forall n, r | 0 <= n < PAGES ensures RightMoved(m0, m2, root, first, perm, n, r) {
      assert count > 0 ==> RightMoved(m0, m1, root, first, perm, n, r);
      assert RightMoved(m1, m2, root, next, perm, n, r);
    }
    forall n, r | first <= n < first + count + 1 ensures PageGrants(m2, root, n, r) == Has(perm, r) {
      if n < first + count {
        assert PageGrants(m1, root, n, r) == Has(perm, r);
        assert RightMoved(m1, m2, root, next, perm, n, r) && SameSlot(n, next);
      }
    }
  }

  lemma MappedAfterSame(m0: Memory, m1: Memory, m2: Memory, root: nat, first: nat, count: nat, start: nat, perm: nat)
    requires SameWalks(m0, m1, root) && PagesMapped(m1, m2, root, first, count, start, perm)
    ensures PagesMapped(m0, m2, root, first, count, start, perm)
  {
    forall n | 0 <= n < PAGES ensures FrameOfPage(m0, root, n) == FrameOfPage(m1, root, n) {
      assert SameWalk(m0, m1, root, PagePath(n));
    }
    forall n, r | 0 <= n < PAGES
      ensures PageGrants(m0, root, n, r) == PageGrants(m1, root, n, r)
      ensures count > 0 ==> RightMoved(m0, m2, root, first, perm, n, r)
    {
      forall k | 1 <= k <= 4 ensures EntryOn(m0, root, PagePath(n)[..k]) == EntryOn(m1, root, PagePath(n)[..k]) {
        assert SameWalk(m0, m1, root, PagePath(n)[..k]);
      }
      assert count > 0 ==> RightMoved(m1, m2, root, first, perm, n, r);
    }
  }

  /** `length` in whole pages, rounded up. */
  function PagesFor(length: nat): (pages: nat)
    ensures length <= pages * PAGE_SIZE < length + PAGE_SIZE
    ensures length == PAGE_SIZE ==> pages == 1
  {
    length / PAGE_SIZE + if length % PAGE_SIZE != 0 then 1 else 0
  }
}
