/** What user mode sees of the boot tables, exact in every state that a run of requests from boot can reach. */
module UserView {
  import opened Options
  import opened Addressing
  import opened PageTables
  import opened PageView
  import opened PageLookup
  import opened PageBoundary
  import opened BootTree
  import opened BootNormal

  // ---- What user mode sees

  /** The frame that user mode reaches at page `n`. */
  ghost function UserPage(mem: Memory, b: nat, n: nat): Option<nat> {
    if PageGrants(mem, b, n, User) then FrameOfPage(mem, b, n) else None
  }

  /** A path that does not begin at the kernel's words. */
  predicate Ordinary(p: Path) {
    && p != [] && p[0] < 511
    && (p[0] == 1 && 2 <= |p| ==> p[1] != 0 && p[1] != 1 && p[1] != 510)
  }

  /** Below the first entry, ordinary walks read the same words in both memories. */
  lemma {:induction false} SameEntry(s: Pager, b: nat, p: Path)
    requires Sound(s, b) && 2 <= |p| <= 4 && Ordinary(p)
    ensures EntryOn(s.mem, b, p) == EntryOn(Normal(s.mem, b), b, p)
    ensures Resolve(s.mem, b, p) == Resolve(Normal(s.mem, b), b, p)
    decreases |p|
  {
    var mem, q, i := Normal(s.mem, b), p[..|p| - 1], p[|p| - 1];
    assert Apart(mem, b, Slots(0, 511), [], q) && Apart(mem, b, Slots(0, 511), [1], q);
    if |p| == 2 {
      SecondEntry(s, b, p);
    } else {
      SameEntry(s, b, q);
      assert IsTable(mem, b, [1]) && q != [1];
    }
  }

  lemma SecondEntry(s: Pager, b: nat, p: Path)
    requires Sound(s, b) && |p| == 2 && Ordinary(p)
    ensures EntryOn(s.mem, b, p) == EntryOn(Normal(s.mem, b), b, p)
  {
    var mem, q := Normal(s.mem, b), p[..1];
    assert q == [p[0]] && EntryOn(s.mem, b, q) == Read(s.mem, b, p[0]);
    assert Apart(mem, b, Slots(0, 511), [], q) && Apart(mem, b, Slots(0, 511), [1], q) && IsTable(mem, b, [1]);
    NormalFirst(s.mem, b, q);
    ListWords(b + 1);
    EntryFields(0, USR_PERM_BITS);
    EntryFields(b + 1, USR_PERM_BITS);
    assert p[0] == 1 && !Present(Read(s.mem, b, 1)) ==> Read(s.mem, b + 1, p[1]) == 0;
  }

  /** If something is mapped below an entry, the entry is open to user mode. */
  lemma FirstEntryOpen(s: Pager, b: nat, n: nat, r: Right)
    requires Running(s, b) && n < PAGES && Ordinary(PagePath(n)) && FrameOfPage(Normal(s.mem, b), b, n).Some?
    ensures Has(EntryOn(s.mem, b, PagePath(n)[..1]), r)
  {
    var mem, p := Normal(s.mem, b), PagePath(n);
    assert PageGrants(mem, b, n, r) && Has(EntryOn(mem, b, p[..1]), r) && Has(EntryOn(mem, b, p[..2]), r);
    assert p[..1] == [p[0]] && p[..2][..1] == p[..1];
    assert EntryOn(s.mem, b, p[..1]) == Read(s.mem, b, p[0]) && EntryOn(mem, b, p[..1]) == Read(mem, b, p[0]);
    EntryFields(0, USR_PERM_BITS);
    EntryFields(b + 1, USR_PERM_BITS);
    NormalFirst(s.mem, b, p[..1]);
    if p[0] == 0 {
      assert Read(s.mem, 0, p[1]) != 0;
    } else if p[0] == 1 {
      assert Read(s.mem, b + 1, p[1]) != 0;
    }
  }

  /** The kernel's words do not let user mode through, and in the tree nothing is there. */
  lemma KernelClosed(s: Pager, b: nat, n: nat)
    requires Sound(s, b) && n < PAGES && !Ordinary(PagePath(n))
    ensures !PageGrants(s.mem, b, n, User) && FrameOfPage(Normal(s.mem, b), b, n) == None
  {
    var mem, p := Normal(s.mem, b), PagePath(n);
    var k := if p[0] == 1 then 2 else 1;
    ClosedEntry(s, b, p, k);
    NothingFurther(mem, b, p, k, 4);
    assert p[..4] == p;
  }

  lemma ClosedEntry(s: Pager, b: nat, p: Path, k: nat)
    requires Sound(s, b) && |p| == 4 && p[0] < TABLE_SIZE && !Ordinary(p) && k == if p[0] == 1 then 2 else 1
    ensures !Has(EntryOn(s.mem, b, p[..k]), User) && Resolve(Normal(s.mem, b), b, p[..k]) == None
  {
    var mem := Normal(s.mem, b);
    assert p[..1] == [p[0]] && p[..2][..1] == p[..1];
    EntryFields(b + 1, KERN_PERM_BITS);
    EntryFields(b + 2, KERN_PERM_BITS);
    EntryFields(b + 1, USR_PERM_BITS);
    ListWords(b + 1);
    LinkClosed(b + 2);
    NormalFirst(s.mem, b, p[..1]);
    assert EntryOn(s.mem, b, p[..1]) == Read(s.mem, b, p[0]);
    if k == 2 {
      assert Read(mem, b + 1, p[1]) == 0;
    }
  }

  lemma LinkClosed(f: nat)
    ensures !Has(1, User) && !Has(f * PAGE_SIZE, User) && !Has(0, User)
  {
    assert f * PAGE_SIZE / 4 == f * 1024;
  }

  /** An ordinary page that is mapped in the tree is open in the real tables. */
  lemma PageOpen(s: Pager, b: nat, n: nat, r: Right)
    requires Running(s, b) && n < PAGES && Ordinary(PagePath(n)) && FrameOfPage(Normal(s.mem, b), b, n).Some?
    ensures PageGrants(s.mem, b, n, r)
  {
    var p := PagePath(n);
    FirstEntryOpen(s, b, n, r);
    assert PageGrants(Normal(s.mem, b), b, n, r);
    forall k | 1 <= k <= 4 ensures Has(EntryOn(s.mem, b, p[..k]), r) {
      if k > 1 { SameEntry(s, b, p[..k]); }
    }
  }

  /** User mode sees exactly what the tree maps, and can write all of it. */
  lemma UserSeesTree(s: Pager, b: nat, n: nat)
    requires Running(s, b) && n < PAGES
    ensures UserPage(s.mem, b, n) == FrameOfPage(Normal(s.mem, b), b, n)
    ensures UserPage(s.mem, b, n).Some? ==> PageGrants(s.mem, b, n, Right.Write)
  {
    var mem, p := Normal(s.mem, b), PagePath(n);
    if Ordinary(p) {
      SameEntry(s, b, p);
      if FrameOfPage(mem, b, n).Some? {
        PageOpen(s, b, n, User);
        PageOpen(s, b, n, Right.Write);
      }
    } else {
      KernelClosed(s, b, n);
    }
  }

  // ---- What a request does

  /** For user mode, and off the kernel's words for every walk, exactly `page` has been mapped. */
  ghost predicate UserMapped(m: Memory, m': Memory, b: nat, page: nat, frame: nat) {
    && (forall n | 0 <= n < PAGES :: UserPage(m', b, n) == if n == page then Some(frame) else UserPage(m, b, n))
    && (forall n | 0 <= n < PAGES && Ordinary(PagePath(n)) ::
          FrameOfPage(m', b, n) == if n == page then Some(frame) else FrameOfPage(m, b, n))
  }

  /** Every user request to the boot tables maps exactly its page for user mode, and keeps what boot established. */
  lemma RunningStep(s: Pager, b: nat, addr: nat, va: nat)
    requires Asked(s, b, addr, va) && PathOf(va)[..3] == PathOf(addr)[..3]
    ensures Servable(s, b, addr)
    ensures var s' := Request(s, b, addr, va);
            && Running(s', b) && s.limit <= s'.limit <= s.limit + 3 && s'.start == NextFrameAddress(s.start)
            && UserMapped(s.mem, s'.mem, b, PageOf(va), s.start / PAGE_SIZE)
            && NewTablesOn(Normal(s.mem, b), Normal(s'.mem, b), b, PathOf(va))
  {
    RunningKept(s, b, addr, va);
    var s' := Request(s, b, addr, va);
    PathsOfPages(PageOf(va), va);
    forall n | 0 <= n < PAGES
      ensures UserPage(s'.mem, b, n) == if n == PageOf(va) then Some(s.start / PAGE_SIZE) else UserPage(s.mem, b, n)
      ensures Ordinary(PagePath(n)) ==>
                FrameOfPage(s'.mem, b, n)
                == if n == PageOf(va) then Some(s.start / PAGE_SIZE) else FrameOfPage(s.mem, b, n)
    {
      UserSeesTree(s, b, n);
      UserSeesTree(s', b, n);
      if Ordinary(PagePath(n)) {
        SameEntry(s, b, PagePath(n));
        SameEntry(s', b, PagePath(n));
      }
    }
  }

  /** A request that leaves the user's tables a tree leaves the whole state sound. */
  lemma SoundAfter(s: Pager, b: nat, addr: nat, va: nat)
    requires Asked(s, b, addr, va) && Servable(NormalPager(s, b), b, addr)
    requires var s' := Request(NormalPager(s, b), b, addr, va); Tree(s'.mem, b, s'.limit, Slots(0, 511))
    ensures Servable(s, b, addr) && Sound(Request(s, b, addr, va), b)
    ensures NormalPager(Request(s, b, addr, va), b) == Request(NormalPager(s, b), b, addr, va)
  {
    RequestCommutes(s, b, addr, va);
    var s' := Request(s, b, addr, va);
    KernelStays(s, b, addr, va);
    FirstWordsStay(s, b, addr, va);
    NormalFirst(s'.mem, b, [0]);
    NormalFirst(s'.mem, b, [1]);
    UserFrames(s.start, 1);
    assert UserAddress(s.start, 1) == NextFrameAddress(UserAddress(s.start, 0));
    SameTables(s, b, PathOf(addr));
  }

  lemma RunningKept(s: Pager, b: nat, addr: nat, va: nat)
    requires Asked(s, b, addr, va) && PathOf(va)[..3] == PathOf(addr)[..3]
    ensures Servable(s, b, addr)
    ensures var s' := Request(s, b, addr, va);
            && Running(s', b) && s.limit <= s'.limit <= s.limit + 3 && s'.start == NextFrameAddress(s.start)
            && NewTablesOn(Normal(s.mem, b), Normal(s'.mem, b), b, PathOf(va))
            && forall n | 0 <= n < PAGES ::
                 FrameOfPage(Normal(s'.mem, b), b, n)
                 == if n == PageOf(va) then Some(s.start / PAGE_SIZE) else FrameOfPage(Normal(s.mem, b), b, n)
  {
    RequestCommutes(s, b, addr, va);
    RequestInTree(NormalPager(s, b), b, Slots(0, 511), addr, va);
    var s' := Request(s, b, addr, va);
    SoundAfter(s, b, addr, va);
    FramesStayApart(s, b, addr, va);
    PathsOfPages(PageOf(va), va);
    OpenStays(Normal(s.mem, b), Normal(s'.mem, b), b, PageOf(va), s.start);
    assert NthUserFrame(s.start, 0) == s.start / PAGE_SIZE;
  }

  lemma OpenStays(m: Memory, m': Memory, b: nat, page: nat, start: nat)
    requires AllOpen(m, b) && PagesMapped(m, m', b, page, 1, start, USR_PERM_BITS)
    ensures AllOpen(m', b)
  {
    forall n, r | 0 <= n < PAGES && FrameOfPage(m', b, n).Some? ensures PageGrants(m', b, n, r) {
      assert Has(USR_PERM_BITS, r) && RightMoved(m, m', b, page, USR_PERM_BITS, n, r);
    }
  }
}
