/** How memmap finds the tables for an address, whatever memory holds, and what that means in a tree. */
module PageLookup {
  import opened Addressing
  import opened PageTables
  import opened PageInstall
  import opened PageView

  /** Memory and the next free frame after some look-ups, and the tables found, from the PML4 table down. */
  datatype Lookup = Lookup(mem: Memory, limit: nat, ts: seq<nat>)

  /** One look-up: a nonzero word names the next table, else the next free frame is cleared and taken. */
  function Down(l: Lookup, i: nat): (r: Lookup)
    requires l.ts != []
    ensures |r.ts| == |l.ts| + 1 && |r.mem| == |l.mem| && (ValidMemory(l.mem) ==> ValidMemory(r.mem))
  {
    var e := Read(l.mem, l.ts[|l.ts| - 1], i);
    if e != 0 then l.(ts := l.ts + [e / PAGE_SIZE])
    else Lookup(if l.limit < |l.mem| then l.mem[l.limit := ZeroTable()] else l.mem, l.limit + 1, l.ts + [l.limit])
  }

  /** Look-ups along `path` until the page table is found. */
  function Descend(l: Lookup, path: Path): (r: Lookup)
    requires |path| == 4 && 1 <= |l.ts| <= 4
    ensures |r.ts| == 4 && r.ts[0] == l.ts[0] && |r.mem| == |l.mem| && (ValidMemory(l.mem) ==> ValidMemory(r.mem))
    ensures l.limit <= r.limit <= l.limit + 4 - |l.ts|
    decreases 4 - |l.ts|
  {
    if |l.ts| == 4 then l else Descend(Down(l, path[|l.ts| - 1]), path)
  }

  /** get_pdp, get_pd and get_pt in turn. */
  function Tables(mem: Memory, root: nat, limit: nat, path: Path): Lookup
    requires |path| == 4
  {
    Descend(Lookup(mem, limit, [root]), path)
  }

  lemma ThreeSteps(mem: Memory, root: nat, limit: nat, path: Path)
    requires |path| == 4
    ensures Tables(mem, root, limit, path)
         == Down(Down(Down(Lookup(mem, limit, [root]), path[0]), path[1]), path[2])
  {
    var l1 := Down(Lookup(mem, limit, [root]), path[0]);
    assert Tables(mem, root, limit, path) == Descend(l1, path) == Descend(Down(l1, path[1]), path);
  }

  /** Everything that is read or written for `addr` is memory. */
  predicate InRange(mem: Memory, root: nat, limit: nat, addr: nat) {
    var l := Tables(mem, root, limit, PathOf(addr));
    l.limit <= |mem| && forall k | 0 <= k < 4 :: l.ts[k] < |mem|
  }

  /** What a one-page request leaves: the tables are looked up for `addr`, the page mapped is that of `va`. */
  function Mapped(mem: Memory, root: nat, limit: nat, addr: nat, va: nat, frame: nat, perm: nat): Memory
    requires ValidMemory(mem) && InRange(mem, root, limit, addr) && frame < |mem|
  {
    var l := Tables(mem, root, limit, PathOf(addr));
    Install(l.mem, PathOf(va), l.ts + [frame], perm)
  }

  // ---- In a tree

  /** The look-ups so far have found, or can make, the first tables on `path`. */
  ghost predicate OnPath(l: Lookup, root: nat, slots: set<nat>, path: Path) {
    && ValidMemory(l.mem) && Tree(l.mem, root, l.limit, slots) && Located(l.mem, root, path, l.ts) && path[0] in slots
    && forall k | 0 <= k < |l.ts| :: l.ts[k] < l.limit
  }

  lemma DownOnPath(l: Lookup, root: nat, slots: set<nat>, path: Path)
    requires OnPath(l, root, slots, path) && |l.ts| < 4
    requires Resolve(l.mem, root, path[..|l.ts|]).None? ==> l.limit < |l.mem|
    ensures var l' := Down(l, path[|l.ts| - 1]);
            && OnPath(l', root, slots, path) && SameWalks(l.mem, l'.mem, root)
            && l'.limit == l.limit + if Resolve(l.mem, root, path[..|l.ts|]).None? then 1 else 0
  {
    FoundTable(l.mem, root, l.limit, slots, path, l.ts);
    if Resolve(l.mem, root, path[..|l.ts|]).None? {
      FreshTable(l.mem, root, l.limit, slots, path, l.ts);
    }
  }

  /** In a tree the look-ups find the tables on the path, allocate exactly the missing ones, and no walk notices. */
  lemma TablesOnPath(mem: Memory, root: nat, limit: nat, slots: set<nat>, path: Path)
    requires ValidMemory(mem) && Tree(mem, root, limit, slots)
    requires |path| == 4 && (forall k | 0 <= k < 4 :: path[k] < TABLE_SIZE) && path[0] in slots
    requires limit + Missing(mem, root, path) <= |mem|
    ensures var l := Tables(mem, root, limit, path);
            OnPath(l, root, slots, path) && SameWalks(mem, l.mem, root) && l.limit == limit + Missing(mem, root, path)
  {
    assert GoodTable(mem, root, limit, slots, []);
    var l0 := Lookup(mem, limit, [root]);
    DownOnPath(l0, root, slots, path);
    var l1 := Down(l0, path[0]);
    assert SameWalk(mem, l1.mem, root, path[..2]) && SameWalk(mem, l1.mem, root, path[..3]);
    DownOnPath(l1, root, slots, path);
    var l2 := Down(l1, path[1]);
    assert SameWalk(l1.mem, l2.mem, root, path[..3]);
    DownOnPath(l2, root, slots, path);
    var l3 := Down(l2, path[2]);
    SameWalksTrans(mem, l1.mem, l2.mem, l3.mem, root);
    ThreeSteps(mem, root, limit, path);
  }

  /** No table has appeared but on `path`. */
  ghost predicate NewTablesOn(mem: Memory, mem': Memory, root: nat, path: Path) {
    forall q | IsTable(mem', root, q) :: IsTable(mem, root, q) || q <= path
  }

  /** A one-page request in a tree, for an address with the same tables as the page. */
  lemma MappedInTree(mem: Memory, root: nat, limit: nat, slots: set<nat>, addr: nat, va: nat, start: nat, perm: nat)
    requires ValidMemory(mem) && Tree(mem, root, limit, slots) && PathOf(addr)[0] in slots
    requires limit + Missing(mem, root, PathOf(addr)) <= |mem|
    requires PathOf(va)[..3] == PathOf(addr)[..3] && IsPerm(perm)
    requires ValidUserAddress(start) && start / PAGE_SIZE < |mem|
    ensures InRange(mem, root, limit, addr)
    ensures var mem' := Mapped(mem, root, limit, addr, va, start / PAGE_SIZE, perm);
            && Tree(mem', root, Tables(mem, root, limit, PathOf(addr)).limit, slots)
            && PagesMapped(mem, mem', root, PageOf(va), 1, start, perm)
            && NewTablesOn(mem, mem', root, PathOf(va))
  {
    TablesOnPath(mem, root, limit, slots, PathOf(addr));
    var l, path := Tables(mem, root, limit, PathOf(addr)), PathOf(va);
    var ns := l.ts + [start / PAGE_SIZE];
    LocatedSibling(l.mem, root, PathOf(addr), path, l.ts);
    assert ns[..4] == l.ts && path[0] == path[..3][0] == PathOf(addr)[0];
    InstalledPage(l.mem, root, va, ns, perm, l.limit, slots, start);
    var mem' := Install(l.mem, path, ns, perm);
    MappedAfterSame(mem, l.mem, mem', root, PageOf(va), 1, start, perm);
    forall q | IsTable(mem', root, q) ensures IsTable(mem, root, q) || q <= path {
      ResolveAfterInstall(l.mem, root, path, ns, perm, l.limit, slots, q);
      assert SameWalk(mem, l.mem, root, q);
    }
  }

  // ---- Requests

  /** Memory, the next free frame, and the next user frame's address. */
  datatype Pager = Pager(mem: Memory, limit: nat, start: nat)

  ghost predicate Servable(s: Pager, root: nat, addr: nat) {
    ValidMemory(s.mem) && InRange(s.mem, root, s.limit, addr) && s.start / PAGE_SIZE < |s.mem|
  }

  /** A one-page request for USR_PERM_BITS, whatever memory holds. */
  ghost function Request(s: Pager, root: nat, addr: nat, va: nat): Pager
    requires Servable(s, root, addr)
  {
    Pager(Mapped(s.mem, root, s.limit, addr, va, s.start / PAGE_SIZE, USR_PERM_BITS),
          Tables(s.mem, root, s.limit, PathOf(addr)).limit, NextFrameAddress(s.start))
  }

  /** Exactly `page` has been mapped, to the next user frame, and tables were only added for it. */
  ghost predicate OneMore(s: Pager, s': Pager, root: nat, page: nat) {
    && PagesMapped(s.mem, s'.mem, root, page, 1, s.start, USR_PERM_BITS)
    && NewTablesOn(s.mem, s'.mem, root, PagePath(page))
    && |s'.mem| == |s.mem| && s.limit <= s'.limit <= s.limit + 3 && s'.start == NextFrameAddress(s.start)
  }

  /** In a tree, a request whose page has the tables of the address maps exactly one page more, and keeps the tree. */
  lemma RequestInTree(s: Pager, root: nat, slots: set<nat>, addr: nat, va: nat)
    requires ValidMemory(s.mem) && Tree(s.mem, root, s.limit, slots) && ValidUserAddress(s.start)
    requires Pml4Offset(addr) in slots && PathOf(va)[..3] == PathOf(addr)[..3]
    requires s.limit + Missing(s.mem, root, PathOf(addr)) <= FIRST_USER_FRAME
    requires END_PADDR_FOR_USRS / PAGE_SIZE <= |s.mem|
    ensures Servable(s, root, addr)
    ensures var s' := Request(s, root, addr, va);
            OneMore(s, s', root, PageOf(va)) && Tree(s'.mem, root, s'.limit, slots) && s'.limit <= FIRST_USER_FRAME
  {
    MappedInTree(s.mem, root, s.limit, slots, addr, va, s.start, USR_PERM_BITS);
    TablesOnPath(s.mem, root, s.limit, slots, PathOf(addr));
    PathsOfPages(PageOf(va), va);
  }
}
