/** A page mapped through tables that were looked up for another address: exactly when that is harmless. memmap does
    this for the page below an address at the beginning of a page table, and for pages behind the end of one. */
module PageBoundary {
  import opened Options
  import opened Addressing
  import opened PageTables
  import opened PageInstall
  import opened PageView
  import opened PageLookup

  /** The first depth at which the paths to the two page tables part. */
  function Parting(path: Path, path': Path): (d: nat)
    requires |path| == |path'| == 4 && path[..3] != path'[..3]
    ensures d < 3 && path[..d] == path'[..d] && path[d] != path'[d]
  {
    if path[0] != path'[0] then 0
    else if path[1] != path'[1] then assert path[..1] == path'[..1]; 1
    else
      assert path[..2] == path'[..2];
      assert path[..3] == path[..2] + [path[2]] && path'[..3] == path'[..2] + [path'[2]];
      2
  }

  // ---- Cutting off a branch of the tree

  lemma PrefixStep(c: Path, p: Path)
    requires p != []
    ensures c <= p <==> c == p || c <= p[..|p| - 1]
  {
    assert p == p[..|p| - 1] + [p[|p| - 1]];
    if c <= p && c != p { assert c == p[..|c|] == p[..|p| - 1][..|c|]; }
  }

  /** `c` leads to an entry of table `t`, which is in the tree or a zeroed frame ready for it. */
  ghost predicate Cuttable(mem: Memory, root: nat, limit: nat, slots: set<nat>, c: Path, t: nat) {
    && ValidMemory(mem) && Tree(mem, root, limit, slots) && t < |mem|
    && 1 <= |c| <= 3 && c[0] in slots && c[|c| - 1] < TABLE_SIZE && Slot(mem, root, c[..|c| - 1], t)
  }

  function Cut(mem: Memory, c: Path, t: nat): Memory
    requires ValidMemory(mem) && t < |mem| && c != [] && c[|c| - 1] < TABLE_SIZE
  {
    Store(mem, t, c[|c| - 1], 0)
  }

  /** Zeroing an entry takes away what was reached through it, and nothing else. */
  lemma {:induction false} EntryAfterCut(mem: Memory, root: nat, limit: nat, slots: set<nat>, c: Path, t: nat, p: Path)
    requires Cuttable(mem, root, limit, slots, c, t) && 1 <= |p| <= 4
    ensures EntryOn(Cut(mem, c, t), root, p) == if c <= p then 0 else EntryOn(mem, root, p)
    decreases |p|, 0
  {
    var q := p[..|p| - 1];
    ResolveAfterCut(mem, root, limit, slots, c, t, q);
    PrefixStep(c, p);
    if !(c <= q) && Resolve(mem, root, q) == Some(t) {
      assert Inside(slots, c[..|c| - 1]) && Apart(mem, root, slots, c[..|c| - 1], q);
      assert q == c[..|c| - 1];
      assert c == q + [c[|c| - 1]] && p == q + [p[|p| - 1]];
    }
  }

  lemma {:induction false} ResolveAfterCut(mem: Memory, root: nat, limit: nat, slots: set<nat>, c: Path, t: nat,
                                           p: Path)
    requires Cuttable(mem, root, limit, slots, c, t) && |p| <= 4
    ensures Resolve(Cut(mem, c, t), root, p) == if c <= p then None else Resolve(mem, root, p)
    decreases |p|, 1
  {
    if p != [] { EntryAfterCut(mem, root, limit, slots, c, t, p); }
  }

  lemma TreeAfterCut(mem: Memory, root: nat, limit: nat, slots: set<nat>, c: Path, t: nat)
    requires Cuttable(mem, root, limit, slots, c, t)
    ensures ValidMemory(Cut(mem, c, t)) && Tree(Cut(mem, c, t), root, limit, slots)
  {
    var mem' := Cut(mem, c, t);
    forall p ensures GoodTable(mem', root, limit, slots, p) {
      if IsTable(mem', root, p) {
        ResolveAfterCut(mem, root, limit, slots, c, t, p);
        assert GoodTable(mem, root, limit, slots, p);
      }
    }
    forall p, q ensures Apart(mem', root, slots, p, q) {
      if |p| <= 3 && |q| <= 3 {
        ResolveAfterCut(mem, root, limit, slots, c, t, p);
        ResolveAfterCut(mem, root, limit, slots, c, t, q);
        assert Apart(mem, root, slots, p, q);
      }
    }
  }

  // ---- The tables of one address at the place of another

  /** The tables for `path` have been looked up; `path'` parts from it at depth `d`. */
  ghost predicate Strayed(l: Lookup, root: nat, slots: set<nat>, path: Path, path': Path, d: nat) {
    && OnPath(l, root, slots, path) && |l.ts| == 4 && |path'| == 4 && d < 3
    && (forall k | 0 <= k < 4 :: path'[k] < TABLE_SIZE) && path'[0] in slots
    && path[..d] == path'[..d] && path[d] != path'[d]
  }

  lemma {:induction false} NothingFurther(mem: Memory, root: nat, path: Path, j: nat, k: nat)
    requires 1 <= j <= k <= |path| && Resolve(mem, root, path[..j]).None?
    ensures Resolve(mem, root, path[..k]).None?
    decreases k
  {
    if j < k {
      NothingFurther(mem, root, path, j, k - 1);
      assert path[..k][..k - 1] == path[..k - 1];
    }
  }

  /** If the tables for `path` are new from depth `d + 1` on, they fit `path'` once its own branch is cut off. */
  lemma FitsAfterCut(l: Lookup, root: nat, slots: set<nat>, path: Path, path': Path, d: nat)
    requires Strayed(l, root, slots, path, path', d) && Resolve(l.mem, root, path[..d + 1]).None?
    ensures Cuttable(l.mem, root, l.limit, slots, path'[..d + 1], l.ts[d])
    ensures Located(Cut(l.mem, path'[..d + 1], l.ts[d]), root, path', l.ts)
  {
    var c, t := path'[..d + 1], l.ts[d];
    assert c[..d] == path[..d] && Slot(l.mem, root, path[..d], t);
    var cut := Cut(l.mem, c, t);
    forall k | 0 <= k < 4 ensures l.ts[k] < |cut| && Slot(cut, root, path'[..k], l.ts[k]) {
      SlotAfterCut(l, root, slots, path, path', d, k);
    }
  }

  lemma SlotAfterCut(l: Lookup, root: nat, slots: set<nat>, path: Path, path': Path, d: nat, k: nat)
    requires Strayed(l, root, slots, path, path', d) && Resolve(l.mem, root, path[..d + 1]).None? && k < 4
    requires Cuttable(l.mem, root, l.limit, slots, path'[..d + 1], l.ts[d])
    ensures l.ts[k] < |l.mem| && Slot(Cut(l.mem, path'[..d + 1], l.ts[d]), root, path'[..k], l.ts[k])
  {
    var c, t := path'[..d + 1], l.ts[d];
    var cut := Cut(l.mem, c, t);
    assert Slot(l.mem, root, path[..k], l.ts[k]);
    ResolveAfterCut(l.mem, root, l.limit, slots, c, t, path'[..k]);
    if k <= d {
      assert path'[..k] == path'[..d][..k] == path[..k] && !(c <= path'[..k]);
    } else {
      assert c == path'[..k][..d + 1];
      NothingFurther(l.mem, root, path, d + 1, k);
    }
    if Resolve(cut, root, path'[..k]).None? {
      assert cut[l.ts[k]] == ZeroTable();
      forall p | IsTable(cut, root, p) ensures Resolve(cut, root, p).value != l.ts[k] {
        ResolveAfterCut(l.mem, root, l.limit, slots, c, t, p);
      }
    }
  }

  /** The cut entry is overwritten. */
  lemma SameInstall(mem: Memory, path: Path, ns: seq<nat>, perm: nat, d: nat)
    requires ValidMemory(mem) && |path| == 4 && |ns| == 5 && d < 3
    requires forall k | 0 <= k < 4 :: path[k] < TABLE_SIZE
    requires forall k | 0 <= k < 5 :: ns[k] < |mem|
    ensures ValidMemory(Cut(mem, path[..d + 1], ns[d]))
    ensures Install(Cut(mem, path[..d + 1], ns[d]), path, ns, perm) == Install(mem, path, ns, perm)
  {
    var a, b := Install(Cut(mem, path[..d + 1], ns[d]), path, ns, perm), Install(mem, path, ns, perm);
    SameMemory(a, b);
  }

  lemma SameMemory(a: Memory, b: Memory)
    requires ValidMemory(a) && ValidMemory(b) && |a| == |b| && forall f, i :: Read(a, f, i) == Read(b, f, i)
    ensures a == b
  {
    forall f | 0 <= f < |a| ensures a[f] == b[f] {
      forall i | 0 <= i < TABLE_SIZE ensures a[f][i] == b[f][i] {
        assert Read(a, f, i) == Read(b, f, i);
      }
    }
  }

  /** A request goes to a tree, both addresses below PML4 entries of it, and they do not share their page table. */
  ghost predicate StrayRequest(s: Pager, root: nat, slots: set<nat>, addr: nat, va: nat) {
    && ValidMemory(s.mem) && Tree(s.mem, root, s.limit, slots) && ValidUserAddress(s.start)
    && PathOf(addr)[0] in slots && PathOf(va)[0] in slots && PathOf(addr)[..3] != PathOf(va)[..3]
    && s.limit + Missing(s.mem, root, PathOf(addr)) <= FIRST_USER_FRAME && END_PADDR_FOR_USRS / PAGE_SIZE <= |s.mem|
  }

  /** If the address lacks the table at which the paths part, the page gets tables of its own; what was mapped
      there is lost, and nothing else changes. */
  lemma NewBranch(s: Pager, root: nat, slots: set<nat>, addr: nat, va: nat, d: nat)
    requires StrayRequest(s, root, slots, addr, va) && d == Parting(PathOf(addr), PathOf(va))
    requires Resolve(s.mem, root, PathOf(addr)[..d + 1]).None?
    ensures Servable(s, root, addr)
    ensures var s' := Request(s, root, addr, va);
            && Tree(s'.mem, root, s'.limit, slots)
            && forall n | 0 <= n < PAGES ::
                 FrameOfPage(s'.mem, root, n)
                 == if n == PageOf(va) then Some(s.start / PAGE_SIZE)
                    else if PathOf(va)[..d + 1] <= PagePath(n) then None else FrameOfPage(s.mem, root, n)
  {
    var path, path' := PathOf(addr), PathOf(va);
    TablesOnPath(s.mem, root, s.limit, slots, path);
    var l := Tables(s.mem, root, s.limit, path);
    assert SameWalk(s.mem, l.mem, root, path[..d + 1]);
    var c, t, ns := path'[..d + 1], l.ts[d], l.ts + [s.start / PAGE_SIZE];
    FitsAfterCut(l, root, slots, path, path', d);
    TreeAfterCut(l.mem, root, l.limit, slots, c, t);
    SameInstall(l.mem, path', ns, USR_PERM_BITS, d);
    var cut := Cut(l.mem, c, t);
    assert ns[..4] == l.ts;
    InstalledPage(cut, root, va, ns, USR_PERM_BITS, l.limit, slots, s.start);
    forall n | 0 <= n < PAGES
      ensures FrameOfPage(cut, root, n) == if c <= PagePath(n) then None else FrameOfPage(s.mem, root, n)
    {
      ResolveAfterCut(l.mem, root, l.limit, slots, c, t, PagePath(n));
      assert SameWalk(s.mem, l.mem, root, PagePath(n));
    }
    assert NthUserFrame(s.start, 0) == s.start / PAGE_SIZE;
  }

  /** The words an installation leaves in four distinct tables. */
  lemma InstallReads(mem: Memory, path: Path, ns: seq<nat>, perm: nat)
    requires ValidMemory(mem) && |path| == 4 && |ns| == 5
    requires forall k | 0 <= k < 4 :: path[k] < TABLE_SIZE
    requires forall k | 0 <= k < 5 :: ns[k] < |mem|
    requires forall j, k | 0 <= j < k < 4 :: ns[j] != ns[k]
    ensures var mem' := Install(mem, path, ns, perm);
            && (forall k | 0 <= k < 4 :: Read(mem', ns[k], path[k]) == Entry(ns[k + 1], perm))
            && (forall k, i | 0 <= k < 4 && i != path[k] :: Read(mem', ns[k], i) == Read(mem, ns[k], i))
  {
  }

  /** The entry for `p` in table `ns[i]` leads to `ns[i + 1]`. */
  predicate Leads(mem: Memory, p: Path, ns: seq<nat>, i: nat)
    requires i < |p| && i + 1 < |ns|
  {
    Present(Read(mem, ns[i], p[i])) && FrameIn(Read(mem, ns[i], p[i])) == ns[i + 1]
  }

  lemma EntryLeads(mem: Memory, p: Path, ns: seq<nat>, i: nat, perm: nat)
    requires i < |p| && i + 1 < |ns| && ns[i + 1] < 0x100_0000_0000 && IsPerm(perm)
    requires Read(mem, ns[i], p[i]) == Entry(ns[i + 1], perm)
    ensures Leads(mem, p, ns, i)
  {
    EntryFields(ns[i + 1], perm);
  }

  /** Following known entries from depth `j` to depth `k`. */
  lemma {:induction false} Follow(mem: Memory, root: nat, p: Path, ns: seq<nat>, j: nat, k: nat)
    requires j <= k <= |p| && k < |ns| && Resolve(mem, root, p[..j]) == Some(ns[j])
    requires forall i | j <= i < k :: Leads(mem, p, ns, i)
    ensures Resolve(mem, root, p[..k]) == Some(ns[k])
    decreases k
  {
    if j < k {
      Follow(mem, root, p, ns, j, k - 1);
      assert p[..k][..k - 1] == p[..k - 1];
      assert Leads(mem, p, ns, k - 1);
    }
  }

  /** If the address has the table at which the paths part, that table is reached twice afterwards: the page at the same
      place below the address changes as well, and the tables are no tree any more. */
  lemma SharedBranch(s: Pager, root: nat, slots: set<nat>, addr: nat, va: nat, d: nat)
    requires StrayRequest(s, root, slots, addr, va) && d == Parting(PathOf(addr), PathOf(va))
    requires Resolve(s.mem, root, PathOf(addr)[..d + 1]).Some?
    ensures Servable(s, root, addr)
    ensures var mem', path, path' := Request(s, root, addr, va).mem, PathOf(addr), PathOf(va);
            && Resolve(mem', root, path[..d + 1]) == Resolve(mem', root, path'[..d + 1])
               == Resolve(s.mem, root, path[..d + 1])
            && Resolve(mem', root, path[..d + 1] + path'[d + 1..]) == Some(s.start / PAGE_SIZE)
    ensures forall limit :: !Tree(Request(s, root, addr, va).mem, root, limit, slots)
  {
    var path, path' := PathOf(addr), PathOf(va);
    TablesOnPath(s.mem, root, s.limit, slots, path);
    var l := Tables(s.mem, root, s.limit, path);
    assert SameWalk(s.mem, l.mem, root, path[..d + 1]);
    SharedAfterInstall(l, root, slots, path, path', d, s.start / PAGE_SIZE);
    var mem' := Install(l.mem, path', l.ts + [s.start / PAGE_SIZE], USR_PERM_BITS);
    assert path[..d + 1][d] != path'[..d + 1][d];
    assert !Apart(mem', root, slots, path[..d + 1], path'[..d + 1]);
  }

  lemma SharedAfterInstall(l: Lookup, root: nat, slots: set<nat>, path: Path, path': Path, d: nat, frame: nat)
    requires Strayed(l, root, slots, path, path', d) && frame < |l.mem| && Resolve(l.mem, root, path[..d + 1]).Some?
    requires forall k | 0 <= k < 4 :: l.ts[k] < |l.mem|
    ensures var mem' := Install(l.mem, path', l.ts + [frame], USR_PERM_BITS);
            && Resolve(mem', root, path[..d + 1]) == Resolve(mem', root, path'[..d + 1])
               == Resolve(l.mem, root, path[..d + 1])
            && Resolve(mem', root, path[..d + 1] + path'[d + 1..]) == Some(frame)
  {
    var ns := l.ts + [frame];
    var mem' := Install(l.mem, path', ns, USR_PERM_BITS);
    InstallReads(l.mem, path', ns, USR_PERM_BITS);
    forall k | 0 <= k < 4 ensures Leads(mem', path', ns, k) {
      EntryLeads(mem', path', ns, k, USR_PERM_BITS);
    }
    Follow(mem', root, path', ns, 0, d);
    Follow(mem', root, path', ns, 0, d + 1);
    assert Slot(l.mem, root, path[..d], l.ts[d]) && Slot(l.mem, root, path[..d + 1], l.ts[d + 1]);
    assert path[..d + 1][..d] == path[..d];
    assert Resolve(mem', root, path[..d + 1]) == Resolve(l.mem, root, path[..d + 1]) == Some(ns[d + 1]);
    SecondTail(mem', root, path, path', ns, d);
  }

  /** From the table at which the paths part, the rest of `path'` can be followed. */
  lemma SecondTail(mem: Memory, root: nat, path: Path, path': Path, ns: seq<nat>, d: nat)
    requires |path| == |path'| == 4 && |ns| == 5 && d < 3 && Resolve(mem, root, path[..d + 1]) == Some(ns[d + 1])
    requires forall k | 0 <= k < 4 :: Leads(mem, path', ns, k)
    ensures Resolve(mem, root, path[..d + 1] + path'[d + 1..]) == Some(ns[4])
  {
    var p := path[..d + 1] + path'[d + 1..];
    assert p[..d + 1] == path[..d + 1] && p[..4] == p;
    assert forall k | d < k < 4 :: Leads(mem, path', ns, k) ==> Leads(mem, p, ns, k);
    Follow(mem, root, p, ns, d + 1, 4);
  }

  /** No page but `page` is mapped below `c`. */
  ghost predicate Alone(mem: Memory, root: nat, c: Path, page: nat) {
    forall n | 0 <= n < PAGES && n != page && c <= PagePath(n) :: FrameOfPage(mem, root, n) == None
  }

  /** The tree is kept and exactly the page of `va` is mapped. */
  ghost predicate Exact(s: Pager, s': Pager, root: nat, slots: set<nat>, va: nat) {
    Tree(s'.mem, root, s'.limit, slots) && Remapped(s.mem, s'.mem, root, PageOf(va), 1, s.start)
  }

  /** Exactly when a page can be mapped through the tables of an address that does not share its page table. */
  lemma StrayExact(s: Pager, root: nat, slots: set<nat>, addr: nat, va: nat)
    requires StrayRequest(s, root, slots, addr, va)
    ensures var d := Parting(PathOf(addr), PathOf(va));
            && Servable(s, root, addr)
            && (Exact(s, Request(s, root, addr, va), root, slots, va) <==>
                && Resolve(s.mem, root, PathOf(addr)[..d + 1]).None?
                && Alone(s.mem, root, PathOf(va)[..d + 1], PageOf(va)))
  {
    var d := Parting(PathOf(addr), PathOf(va));
    if Resolve(s.mem, root, PathOf(addr)[..d + 1]).None? {
      NewBranch(s, root, slots, addr, va, d);
      assert NthUserFrame(s.start, 0) == s.start / PAGE_SIZE;
    } else {
      SharedBranch(s, root, slots, addr, va, d);
    }
  }

  /** So a request that has mapped a page and goes on behind the end of its page table never keeps the tree. */
  lemma BehindTableEnd(s: Pager, root: nat, slots: set<nat>, addr: nat, va: nat)
    requires StrayRequest(s, root, slots, addr, va) && Missing(s.mem, root, PathOf(addr)) == 0
    ensures Servable(s, root, addr) && !Exact(s, Request(s, root, addr, va), root, slots, va)
  {
    StrayExact(s, root, slots, addr, va);
  }

  /** An address at the beginning of a page table and the page before it. */
  lemma TableStart(addr: nat)
    requires PAGE_SIZE <= addr && PtOffset(addr) == 0
    ensures PathOf(addr - PAGE_SIZE)[..3] != PathOf(addr)[..3]
  {
    var n := addr / PAGE_SIZE;
    var q := n / 512;
    Euclid(addr - PAGE_SIZE, PAGE_SIZE, n - 1, addr % PAGE_SIZE);
    Euclid(n - 1, 512, q - 1, 511);
    assert (q - 1) % 512 != q % 512;
    assert PathOf(addr - PAGE_SIZE)[..3][2] == (q - 1) % 512 && PathOf(addr)[..3][2] == q % 512;
  }

  /** GROWS_DOWN maps exactly its page and keeps the tree if and only if the page does not lie before the beginning of
      a page table, or else the address lacks the table at which the two part and nothing else is mapped there. */
  lemma GrowsDownExact(s: Pager, root: nat, slots: set<nat>, addr: nat)
    requires ValidMemory(s.mem) && Tree(s.mem, root, s.limit, slots) && ValidUserAddress(s.start)
    requires PAGE_SIZE <= addr && PathOf(addr)[0] in slots && PathOf(addr - PAGE_SIZE)[0] in slots
    requires s.limit + Missing(s.mem, root, PathOf(addr)) <= FIRST_USER_FRAME
    requires END_PADDR_FOR_USRS / PAGE_SIZE <= |s.mem|
    ensures var path, path' := PathOf(addr), PathOf(addr - PAGE_SIZE);
            && Servable(s, root, addr) && (PtOffset(addr) == 0 ==> path[..3] != path'[..3])
            && (Exact(s, Request(s, root, addr, addr - PAGE_SIZE), root, slots, addr - PAGE_SIZE) <==>
                || PtOffset(addr) > 0
                || (var d := Parting(path, path');
                    && Resolve(s.mem, root, path[..d + 1]).None?
                    && Alone(s.mem, root, path'[..d + 1], PageOf(addr - PAGE_SIZE))))
  {
    if PtOffset(addr) > 0 {
      SamePathBefore(addr);
      RequestInTree(s, root, slots, addr, addr - PAGE_SIZE);
    } else {
      TableStart(addr);
      StrayExact(s, root, slots, addr, addr - PAGE_SIZE);
    }
  }
}
