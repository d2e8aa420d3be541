/** The virtual addresses that successive one-page NEW_PAGE and GROWS_DOWN requests map,
    with `dif_ctxt` cleared as it is from the first process on. */
module UserAddresses {
  import opened Addressing

  const PML_INC: nat := 0x80_0000_0000
  const PML_MAX_INC: nat := 0xFF80_0000_0000

  /** get_user_virt_addr(0) advances to this address. */
  function NextVirtualAddress(u: nat): nat {
    if u + PAGE_SIZE < PHYSBASE + VIRT_BASE then u + PAGE_SIZE else START_VADDR_FOR_USRS
  }

  /** The last page that get_user_virt_addr(0) hands out. */
  const LAST_VADDR: nat := PHYSBASE + VIRT_BASE - PAGE_SIZE

  /** The cursor goes round the pages from START_VADDR_FOR_USRS up to that one. */
  lemma {:induction false} CursorCircle(u: nat, n: nat)
    requires START_VADDR_FOR_USRS <= u <= LAST_VADDR && u % PAGE_SIZE == 0 && n * PAGE_SIZE <= LAST_VADDR - u
    ensures Advanced(u, n) == u + n * PAGE_SIZE
    ensures u + n * PAGE_SIZE == LAST_VADDR ==> Advanced(u, n + 1) == START_VADDR_FOR_USRS
  {
    if n > 0 { CursorCircle(u, n - 1); }
  }

  function Advanced(u: nat, n: nat): nat { if n == 0 then u else NextVirtualAddress(Advanced(u, n - 1)) }

  /** increment_pml advances to this offset. */
  function NextPml(p: nat): nat {
    if p + PML_INC == PML_MAX_INC then 0 else p + PML_INC
  }

  datatype Call = NewPage | GrowsDown

  /** `user_addr` and `pml_same_ctxt` */
  datatype Cursors = Cursors(userAddr: nat, pml: nat)

  function Step(c: Cursors, call: Call): Cursors {
    match call
    case NewPage => Cursors(NextVirtualAddress(c.userAddr), NextPml(c.pml))
    case GrowsDown => Cursors(NextVirtualAddress(c.userAddr), c.pml)
  }

  /** The page a call maps. */
  function Target(c: Cursors, call: Call): nat
    requires PAGE_SIZE <= c.userAddr
  {
    match call
    case NewPage => c.userAddr + NextPml(c.pml)
    case GrowsDown => c.userAddr - PAGE_SIZE
  }

  function After(c: Cursors, calls: seq<Call>): Cursors {
    if calls == [] then c else Step(After(c, calls[..|calls| - 1]), calls[|calls| - 1])
  }

  function NewPages(calls: seq<Call>): nat {
    if calls == [] then 0
    else NewPages(calls[..|calls| - 1]) + if calls[|calls| - 1].NewPage? then 1 else 0
  }

  /** The state from which runs are considered: `slot` PML4 slots used, room for `n` more pages in slot 0. */
  predicate Start(c: Cursors, slot: nat, n: nat) {
    && PAGE_SIZE <= c.userAddr && c.userAddr % PAGE_SIZE == 0 && c.userAddr + n * PAGE_SIZE <= PML_INC
    && slot < 511 && c.pml == slot * PML_INC
  }

  /** The PML4 slot, counted round 511 slots, that the `k`-th call uses if it is a NEW_PAGE. */
  function SlotOf(slot: nat, calls: seq<Call>, k: nat): nat
    requires k < |calls|
  {
    (slot + NewPages(calls[..k + 1])) % 511
  }

  lemma {:induction false} CursorsAfter(c: Cursors, slot: nat, calls: seq<Call>)
    requires Start(c, slot, |calls|)
    ensures After(c, calls) == Cursors(c.userAddr + |calls| * PAGE_SIZE, (slot + NewPages(calls)) % 511 * PML_INC)
  {
    if calls != [] {
      CursorsAfter(c, slot, calls[..|calls| - 1]);
      NextSlot(slot + NewPages(calls[..|calls| - 1]));
    }
  }

  function PageAt(c: Cursors, calls: seq<Call>, k: nat): nat
    requires k < |calls| && PAGE_SIZE <= After(c, calls[..k]).userAddr
  {
    Target(After(c, calls[..k]), calls[k])
  }

  lemma SlotArithmetic(low: nat, s: nat)
    requires low < PML_INC && low % PAGE_SIZE == 0 && s < 511
    ensures (low + s * PML_INC) % PAGE_SIZE == 0 && low + s * PML_INC < PML_MAX_INC
    ensures Pml4Offset(low + s * PML_INC) == s
  {
    var n := low / PAGE_SIZE;
    Euclid(low + s * PML_INC, PAGE_SIZE, n + s * 0x800_0000, 0);
    Euclid(n + s * 0x800_0000, 512, n / 512 + s * 0x4_0000, n % 512);
    Euclid(n / 512 + s * 0x4_0000, 512, n / 512 / 512 + s * 512, n / 512 % 512);
    Euclid(n / 512 / 512 + s * 512, 512, s, n / 512 / 512);
  }

  lemma AlignedPages(a: nat, b: nat)
    requires a < PML_MAX_INC && b < PML_MAX_INC && a % PAGE_SIZE == 0 && b % PAGE_SIZE == 0
    ensures PageOf(a) == PageOf(b) <==> a == b
  {
  }

  lemma NextSlot(s: nat)
    ensures NextPml(s % 511 * PML_INC) == (s + 1) % 511 * PML_INC
  {
  }

  /** The page of the `k`-th call, in closed form. */
  lemma PageInRun(c: Cursors, slot: nat, calls: seq<Call>, k: nat)
    requires Start(c, slot, |calls|) && k < |calls|
    ensures PAGE_SIZE <= After(c, calls[..k]).userAddr
    ensures PageAt(c, calls, k)
         == if calls[k].NewPage? then c.userAddr + k * PAGE_SIZE + SlotOf(slot, calls, k) * PML_INC
            else c.userAddr + k * PAGE_SIZE - PAGE_SIZE
    ensures PageAt(c, calls, k) % PAGE_SIZE == 0 && PageAt(c, calls, k) < PML_MAX_INC
    ensures Pml4Offset(PageAt(c, calls, k)) == if calls[k].NewPage? then SlotOf(slot, calls, k) else 0
  {
    CursorsAfter(c, slot, calls[..k]);
    assert calls[..k + 1][..k] == calls[..k];
    var low := c.userAddr + k * PAGE_SIZE;
    SlotArithmetic(low, SlotOf(slot, calls, k));
    SlotArithmetic(low - PAGE_SIZE, 0);
    if calls[k].NewPage? { NextSlot(slot + NewPages(calls[..k])); }
  }

  /** A NEW_PAGE whose offset has come round to 0, right before a GROWS_DOWN. */
  predicate Clash(slot: nat, calls: seq<Call>, k: nat) {
    k + 1 < |calls| && calls[k].NewPage? && SlotOf(slot, calls, k) == 0 && calls[k + 1].GrowsDown?
  }

  ghost predicate AllDistinct(c: Cursors, calls: seq<Call>)
    requires forall k | 0 <= k < |calls| :: PAGE_SIZE <= After(c, calls[..k]).userAddr
  {
    forall j, k | 0 <= j < k < |calls| :: PageOf(PageAt(c, calls, j)) != PageOf(PageAt(c, calls, k))
  }

  /** Exactly when the pages of a run are pairwise distinct. No page is ever in the kernel's slot 511. */
  lemma PagesOfRun(c: Cursors, slot: nat, calls: seq<Call>)
    requires Start(c, slot, |calls|)
    ensures forall k | 0 <= k < |calls| :: PAGE_SIZE <= After(c, calls[..k]).userAddr
    ensures forall k | 0 <= k < |calls| :: Pml4Offset(PageAt(c, calls, k)) != 511
    ensures AllDistinct(c, calls) <==> forall k | 0 <= k < |calls| :: !Clash(slot, calls, k)
  {
    forall k | 0 <= k < |calls|
      ensures PAGE_SIZE <= After(c, calls[..k]).userAddr && Pml4Offset(PageAt(c, calls, k)) != 511
    {
      PageInRun(c, slot, calls, k);
    }
    forall j, k | 0 <= j < k < |calls|
      ensures PageOf(PageAt(c, calls, j)) == PageOf(PageAt(c, calls, k)) <==> k == j + 1 && Clash(slot, calls, j)
    {
      PairOfRun(c, slot, calls, j, k);
    }
    if k :| 0 <= k < |calls| && Clash(slot, calls, k) {
      assert PageOf(PageAt(c, calls, k)) == PageOf(PageAt(c, calls, k + 1));
    }
  }

  lemma PairOfRun(c: Cursors, slot: nat, calls: seq<Call>, j: nat, k: nat)
    requires Start(c, slot, |calls|) && j < k < |calls|
    requires forall i | 0 <= i < |calls| :: PAGE_SIZE <= After(c, calls[..i]).userAddr
    ensures PageOf(PageAt(c, calls, j)) == PageOf(PageAt(c, calls, k)) <==> k == j + 1 && Clash(slot, calls, j)
  {
    PageInRun(c, slot, calls, j);
    PageInRun(c, slot, calls, k);
    var a, b := PageAt(c, calls, j), PageAt(c, calls, k);
    AlignedPages(a, b);
  }

  /** From a fresh offset, runs with at most 510 NEW_PAGE calls never clash. */
  lemma {:induction false} FewNewPages(calls: seq<Call>, k: nat)
    requires NewPages(calls) <= 510
    ensures !Clash(0, calls, k)
  {
    if k < |calls| && calls[k].NewPage? {
      NewPagesMonotone(calls, k + 1);
      assert calls[..k + 1][..k] == calls[..k];
    }
  }

  lemma {:induction false} NewPagesMonotone(calls: seq<Call>, k: nat)
    requires k <= |calls|
    ensures NewPages(calls[..k]) <= NewPages(calls)
    decreases |calls|
  {
    if k == |calls| {
      assert calls[..k] == calls;
    } else {
      NewPagesMonotone(calls[..|calls| - 1], k);
      assert calls[..|calls| - 1][..k] == calls[..k];
    }
  }

  /** The bound is sharp: 511 NEW_PAGE calls and then a GROWS_DOWN map one page twice. */
  lemma BoundIsSharp(c: Cursors)
    requires Start(c, 0, 512)
    ensures var calls := seq(511, i => NewPage) + [GrowsDown];
            && (forall k | 0 <= k < |calls| :: PAGE_SIZE <= After(c, calls[..k]).userAddr)
            && !AllDistinct(c, calls)
  {
    var news := seq(511, i => NewPage);
    var calls := news + [GrowsDown];
    AllNewPages(news);
    assert calls[..511] == news;
    assert Clash(0, calls, 510);
    PagesOfRun(c, 0, calls);
  }

  lemma {:induction false} AllNewPages(calls: seq<Call>)
    requires forall k | 0 <= k < |calls| :: calls[k].NewPage?
    ensures NewPages(calls) == |calls|
  {
    if calls != [] { AllNewPages(calls[..|calls| - 1]); }
  }
}
