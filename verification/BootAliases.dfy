/** What the boot tables show a second time, below the kernel's entry 511 and at the stray words below entry 1, and
    exactly when a user request maps its page alone. */
module BootAliases {
  import opened Options
  import opened Addressing
  import opened PageTables
  import opened PageInstall
  import opened PageView
  import opened PageLookup
  import opened PageBoundary
  import opened PagingRuns
  import opened Boot
  import opened BootTree
  import opened BootNormal
  import opened UserView

  /** Where the user's tree shows what lies below the kernel's entry. */
  function Image(p: Path): Path
    requires 2 <= |p|
  {
    if p[1] == 0 then [0] + p[2..] else [1] + p[1..]
  }

  /** Below the kernel's entry, but for its page directory and the link, walks run through the user's tables: through
      those of entry 1, and one level late through those of entry 0. */
  lemma {:induction false} BelowKernel(s: Pager, b: nat, p: Path)
    requires Running(s, b) && 2 <= |p| <= 4 && p[0] == 511 && p[1] != 1 && p[1] != 510
    ensures Resolve(s.mem, b, p) == Resolve(Normal(s.mem, b), b, Image(p))
    decreases |p|
  {
    var mem, q, i := Normal(s.mem, b), p[..|p| - 1], p[|p| - 1];
    if |p| == 2 {
      KernelSecond(s, b, p);
    } else {
      BelowKernel(s, b, q);
      var r := Image(p);
      assert r[..|r| - 1] == Image(q) && r[|r| - 1] == i;
      assert Apart(mem, b, Slots(0, 511), [], Image(q)) && Apart(mem, b, Slots(0, 511), [1], Image(q));
      assert IsTable(mem, b, [1]) && Image(q) != [1] && Image(q) != [];
    }
  }

  lemma KernelSecond(s: Pager, b: nat, p: Path)
    requires Running(s, b) && |p| == 2 && p[0] == 511 && p[1] != 1 && p[1] != 510
    ensures Resolve(s.mem, b, p) == Resolve(Normal(s.mem, b), b, Image(p))
  {
    EntryFields(b + 1, KERN_PERM_BITS);
    ListWords(0);
    assert p[..1] == [511] && EntryOn(s.mem, b, [511]) == Read(s.mem, b, 511);
    assert EntryOn(s.mem, b, p) == Read(s.mem, b + 1, p[1]);
    var r := Image(p);
    if p[1] == 0 {
      assert r == [0];
    } else {
      assert r == [1, p[1]] && r[..1] == [1];
      assert EntryOn(Normal(s.mem, b), b, r) == Read(Normal(s.mem, b), b + 1, p[1]);
    }
  }

  /** Below the link is nothing, and below the kernel's page directory are its own tables. */
  lemma KernelBranch(s: Pager, b: nat, p: Path)
    requires Running(s, b) && 2 <= |p| <= 3 && p[0] == 511 && (p[1] == 1 || p[1] == 510)
    ensures Resolve(s.mem, b, p)
         == if p[1] == 1 then None else if |p| == 2 then Some(b + 2)
            else if p[2] < 49 then Some(TableOf(b, p[2])) else None
  {
    KernelDirectory(s, b, p[..2]);
    if |p| == 2 {
      assert p[..2] == p;
    } else if p[1] == 510 && p[2] < 49 {
      assert RegionDone(s.mem, b, p[2]);
      EntryFields(TableOf(b, p[2]), KERN_PERM_BITS);
    }
  }

  lemma KernelDirectory(s: Pager, b: nat, p: Path)
    requires Running(s, b) && |p| == 2 && p[0] == 511 && (p[1] == 1 || p[1] == 510)
    ensures Resolve(s.mem, b, p) == if p[1] == 1 then None else Some(b + 2)
  {
    EntryFields(b + 1, KERN_PERM_BITS);
    EntryFields(b + 2, KERN_PERM_BITS);
    ListWords(b + 2);
    assert p[..1] == [511] && EntryOn(s.mem, b, [511]) == Read(s.mem, b, 511);
    assert EntryOn(s.mem, b, p) == Read(s.mem, b + 1, p[1]);
  }

  /** Entries with the same table show the same below. */
  lemma {:induction false} SameBelow(mem: Memory, b: nat, p: Path, q: Path)
    requires 1 <= |p| == |q| && p[1..] == q[1..] && Resolve(mem, b, p[..1]) == Resolve(mem, b, q[..1])
    ensures Resolve(mem, b, p) == Resolve(mem, b, q)
    decreases |p|
  {
    if |p| == 1 {
      assert p[..1] == p && q[..1] == q;
    } else {
      var k := |p| - 1;
      assert p[..k][1..] == p[1..][..k - 1] == q[..k][1..] && p[..k][..1] == p[..1] && q[..k][..1] == q[..1];
      SameBelow(mem, b, p[..k], q[..k]);
      assert p[k] == p[1..][k - 1] == q[k];
    }
  }

  /** Entry 1 leads nowhere, or where the kernel's entry leads. */
  lemma SlotOneOrKernel(s: Pager, b: nat, p: Path)
    requires Running(s, b) && 1 <= |p| <= 4 && p[0] == 1
    ensures Resolve(s.mem, b, p)
         == if Read(s.mem, b, 1) == Entry(b + 1, USR_PERM_BITS) then Resolve(s.mem, b, [511] + p[1..]) else None
  {
    FirstTwins(s, b);
    var q := [511] + p[1..];
    assert p[..1] == [1] && q[..1] == [511] && q[1..] == p[1..];
    if Read(s.mem, b, 1) == Entry(b + 1, USR_PERM_BITS) {
      SameBelow(s.mem, b, p, q);
    } else {
      NothingFurther(s.mem, b, p, 1, |p|);
      assert p[..|p|] == p;
    }
  }

  lemma FirstTwins(s: Pager, b: nat)
    requires Running(s, b)
    ensures Resolve(s.mem, b, [511]) == Some(b + 1)
    ensures Resolve(s.mem, b, [1]) == if Read(s.mem, b, 1) == Entry(b + 1, USR_PERM_BITS) then Some(b + 1) else None
  {
    EntryFields(b + 1, KERN_PERM_BITS);
    EntryFields(b + 1, USR_PERM_BITS);
    ListWords(b + 1);
    assert EntryOn(s.mem, b, [1]) == Read(s.mem, b, 1) && EntryOn(s.mem, b, [511]) == Read(s.mem, b, 511);
  }

  // ---- User pages and page tables

  /** Every table that any walk reaches lies below the allocator's cursor. */
  lemma TablesBelowCursor(s: Pager, b: nat, q: Path)
    requires Running(s, b) && IsTable(s.mem, b, q)
    ensures Resolve(s.mem, b, q).value < s.limit
  {
    var mem := Normal(s.mem, b);
    EntryFields(b + 1, KERN_PERM_BITS);
    if q != [] && q[0] == 511 {
      KernelTable(s, b, q);
    } else if q != [] && q[0] == 1 {
      SlotOneOrKernel(s, b, q);
      KernelTable(s, b, [511] + q[1..]);
    } else if |q| >= 2 {
      NoEntry(s.mem, b, q);
      SameEntry(s, b, q);
      assert GoodTable(mem, b, s.limit, Slots(0, 511), q);
    } else if |q| == 1 {
      NormalFirst(s.mem, b, q);
      ListWords(0);
      EntryFields(0, USR_PERM_BITS);
      assert EntryOn(s.mem, b, q) == Read(s.mem, b, q[0]);
      assert GoodTable(mem, b, s.limit, Slots(0, 511), q);
    }
  }

  lemma NoEntry(mem: Memory, b: nat, p: Path)
    requires ValidMemory(mem) && p != []
    ensures p[0] >= TABLE_SIZE ==> Resolve(mem, b, p) == None
  {
    if p[0] >= TABLE_SIZE {
      assert p[..1] == [p[0]] && EntryOn(mem, b, p[..1]) == Read(mem, b, p[0]) == 0;
      NothingFurther(mem, b, p, 1, |p|);
      assert p[..|p|] == p;
    }
  }

  lemma KernelTable(s: Pager, b: nat, q: Path)
    requires Running(s, b) && 1 <= |q| <= 3 && q[0] == 511 && Resolve(s.mem, b, q).Some?
    ensures Resolve(s.mem, b, q).value < s.limit
  {
    EntryFields(b + 1, KERN_PERM_BITS);
    if |q| == 1 {
      assert q == [511] && EntryOn(s.mem, b, q) == Read(s.mem, b, 511);
    } else if q[1] == 1 || q[1] == 510 {
      KernelBranch(s, b, q);
    } else {
      BelowKernel(s, b, q);
      assert GoodTable(Normal(s.mem, b), b, s.limit, Slots(0, 511), Image(q));
    }
  }

  /** In every state that requests from boot reach, what user mode sees are user frames, and no page table is among
      them. */
  lemma NoTableForUsers(s: Pager, b: nat, n: nat, q: Path)
    requires Running(s, b) && n < PAGES && UserPage(s.mem, b, n).Some?
    ensures IsUserFrame(UserPage(s.mem, b, n).value)
    ensures IsTable(s.mem, b, q) ==> Resolve(s.mem, b, q) != UserPage(s.mem, b, n)
  {
    UserSeesTree(s, b, n);
    if !Ordinary(PagePath(n)) { KernelClosed(s, b, n); }
    assert PageGrants(Normal(s.mem, b), b, n, User);
    UserPagesAreNoTables(Normal(s.mem, b), b, s.limit, Slots(0, 511), n, []);
    if IsTable(s.mem, b, q) { TablesBelowCursor(s, b, q); }
  }

  // ---- Exactly when a page is mapped alone

  /** What a request does to every walk of the tree. */
  lemma TreeAfter(s: Pager, b: nat, addr: nat, va: nat, p: Path)
    requires Asked(s, b, addr, va) && PathOf(va)[..3] == PathOf(addr)[..3] && |p| <= 4
    ensures Servable(s, b, addr) && ValidMemory(Request(s, b, addr, va).mem) && |Request(s, b, addr, va).mem| == |s.mem|
    ensures var old', new' := Resolve(Normal(s.mem, b), b, p), Resolve(Normal(Request(s, b, addr, va).mem, b), b, p);
            && (!(p <= PathOf(va)) ==> new' == old')
            && (p <= PathOf(va) ==> new'.Some? && (|p| < 4 && old'.Some? ==> new' == old'))
            && (p == PathOf(va) ==> new' == Some(s.start / PAGE_SIZE))
  {
    RequestCommutes(s, b, addr, va);
    var path, path' := PathOf(addr), PathOf(va);
    SameTables(s, b, path);
    var l := Tables(s.mem, b, s.limit, path);
    var ns, m := l.ts + [s.start / PAGE_SIZE], Normal(l.mem, b);
    LocatedSibling(m, b, path, path', l.ts);
    assert ns[..4] == l.ts;
    ResolveAfterInstall(m, b, path', ns, USR_PERM_BITS, l.limit, Slots(0, 511), p);
    assert SameWalk(Normal(s.mem, b), m, b, p);
    if p <= path' && |p| < 4 { assert p == path'[..|p|] && Slot(m, b, p, l.ts[|p|]); }
  }

  /** The kernel's own pages are as they were. */
  lemma KernelPagesKept(s: Pager, s': Pager, b: nat, p: Path)
    requires Running(s, b) && Running(s', b) && SameKernel(s.mem, s'.mem, b)
    requires |p| == 4 && p[0] == 511 && (p[1] == 1 || p[1] == 510)
    ensures Resolve(s'.mem, b, p) == Resolve(s.mem, b, p)
  {
    KernelBranch(s, b, p[..3]);
    KernelBranch(s', b, p[..3]);
    if p[1] == 510 && p[2] < 49 {
      assert Read(s'.mem, TableOf(b, p[2]), p[3]) == Read(s.mem, TableOf(b, p[2]), p[3]);
    }
  }

  /** The request shows nowhere else: it is below an entry from 2 on, or the page's table is there already below entry
      0, or the page is mapped so already below entry 1. */
  ghost predicate Hidden(s: Pager, b: nat, va: nat) {
    var path := PathOf(va);
    || path[0] >= 2
    || (path[0] == 0 && Resolve(s.mem, b, path[..3]).Some?)
    || (path[0] == 1 && Resolve(s.mem, b, path) == Some(s.start / PAGE_SIZE))
  }

  /** Below the kernel's entry, a hidden request changes nothing. */
  lemma KernelSideKept(s: Pager, b: nat, addr: nat, va: nat, p: Path)
    requires Asked(s, b, addr, va) && PathOf(va)[..3] == PathOf(addr)[..3] && Hidden(s, b, va)
    requires |p| == 4 && p[0] == 511
    ensures Servable(s, b, addr) && Resolve(Request(s, b, addr, va).mem, b, p) == Resolve(s.mem, b, p)
  {
    RunningKept(s, b, addr, va);
    var s', path := Request(s, b, addr, va), PathOf(va);
    if p[1] == 1 || p[1] == 510 {
      KernelStays(s, b, addr, va);
      KernelPagesKept(s, s', b, p);
    } else {
      BelowKernel(s, b, p);
      BelowKernel(s', b, p);
      TreeAfter(s, b, addr, va, Image(p));
      if Image(p) <= path {
        SameEntry(s, b, path[..|Image(p)|]);
        assert Image(p) == path[..|Image(p)|] && path[..4] == path;
      }
    }
  }

  /** So does entry 1 where it is not the user's. */
  lemma SlotOneKept(s: Pager, b: nat, addr: nat, va: nat, p: Path)
    requires Asked(s, b, addr, va) && PathOf(va)[..3] == PathOf(addr)[..3] && Hidden(s, b, va) && |p| == 4 && p[0] == 1
    requires !Ordinary(p)
    ensures Servable(s, b, addr) && Resolve(Request(s, b, addr, va).mem, b, p) == Resolve(s.mem, b, p)
  {
    RunningKept(s, b, addr, va);
    var s' := Request(s, b, addr, va);
    SlotOneOrKernel(s, b, p);
    SlotOneOrKernel(s', b, p);
    KernelSideKept(s, b, addr, va, [511] + p[1..]);
    if PathOf(va)[0] == 1 {
      SlotOneOrKernel(s, b, PathOf(va));
      RootWord(s, b, addr, va);
    } else {
      FirstTablesApart(s, b, addr, va, b, 1);
    }
  }

  lemma HiddenAlone(s: Pager, b: nat, addr: nat, va: nat)
    requires Asked(s, b, addr, va) && PathOf(va)[..3] == PathOf(addr)[..3] && Hidden(s, b, va)
    ensures Servable(s, b, addr) && Remapped(s.mem, Request(s, b, addr, va).mem, b, PageOf(va), 1, s.start)
  {
    RunningStep(s, b, addr, va);
    var s' := Request(s, b, addr, va);
    assert NthUserFrame(s.start, 0) == s.start / PAGE_SIZE;
    PathsOfPages(PageOf(va), va);
    forall n | 0 <= n < PAGES
      ensures FrameOfPage(s'.mem, b, n)
           == if n == PageOf(va) then Some(s.start / PAGE_SIZE) else FrameOfPage(s.mem, b, n)
    {
      var p := PagePath(n);
      if p[0] == 511 {
        KernelSideKept(s, b, addr, va, p);
      } else if !Ordinary(p) {
        SlotOneKept(s, b, addr, va, p);
      }
    }
  }

  /** What is new on the page's path shows below the kernel's entry. */
  lemma ShownAt(s: Pager, b: nat, addr: nat, va: nat, p: Path)
    requires Asked(s, b, addr, va) && PathOf(va)[..3] == PathOf(addr)[..3]
    requires |p| == 4 && p[0] == 511 && p[1] != 1 && p[1] != 510 && Image(p) <= PathOf(va)
    requires if p[1] == 0 then Resolve(s.mem, b, Image(p)) == None
             else Image(p) == PathOf(va) && Resolve(s.mem, b, Image(p)) != Some(s.start / PAGE_SIZE)
    ensures Servable(s, b, addr) && Resolve(Request(s, b, addr, va).mem, b, p) != Resolve(s.mem, b, p)
  {
    RunningKept(s, b, addr, va);
    BelowKernel(s, b, p);
    BelowKernel(Request(s, b, addr, va), b, p);
    TreeAfter(s, b, addr, va, Image(p));
    SameEntry(s, b, Image(p));
  }

  /** A request that is not hidden shows there. */
  lemma ShownBelowKernel(s: Pager, b: nat, addr: nat, va: nat)
    requires Asked(s, b, addr, va) && PathOf(va)[..3] == PathOf(addr)[..3] && !Hidden(s, b, va)
    ensures Servable(s, b, addr) && !Remapped(s.mem, Request(s, b, addr, va).mem, b, PageOf(va), 1, s.start)
  {
    var path := PathOf(va);
    var p := if path[0] == 0 then [511, 0, path[1], path[2]] else [511] + path[1..];
    assert Image(p) == if path[0] == 0 then path[..3] else path;
    ShownAt(s, b, addr, va, p);
    PathOfPageAt(p);
    Unasked(s.mem, Request(s, b, addr, va).mem, b, va, s.start, PageAtPath(p));
  }

  /** In every state that requests from boot reach, a page is mapped alone, for the kernel's walks too, if and only if
      the request is hidden. */
  lemma AloneExact(s: Pager, b: nat, addr: nat, va: nat)
    requires Asked(s, b, addr, va) && PathOf(va)[..3] == PathOf(addr)[..3]
    ensures Servable(s, b, addr)
    ensures Remapped(s.mem, Request(s, b, addr, va).mem, b, PageOf(va), 1, s.start) <==> Hidden(s, b, va)
  {
    if Hidden(s, b, va) {
      HiddenAlone(s, b, addr, va);
    } else {
      ShownBelowKernel(s, b, addr, va);
    }
  }
}
