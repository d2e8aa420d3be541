/** The tables that boot leaves, set right on paper. In the boot PML4 table the kernel's entry 511 and user entry 1
    lead to the same table, and stray words lead from there to frame 0 and to the kernel's page directory. Without
    those words, and with entries 0 and 1 as the first request below them rewrites them, the user's tables form a
    tree. Requests do not tell the two memories apart, and user mode does not either. */
module BootNormal {
  import opened Options
  import opened Addressing
  import opened PageTables
  import opened PageInstall
  import opened PageView
  import opened PageLookup
  import opened PageBoundary
  import opened Boot
  import opened BootTree

  /** The words through which walks leave the user's tables. */
  predicate KernelWord(b: nat, t: nat, i: nat) {
    (t == b && i == 511) || (t == b + 1 && (i == 0 || i == 1 || i == 510))
  }

  function NormalWord(b: nat, t: nat, i: nat, w: nat): nat {
    if KernelWord(b, t, i) then 0
    else if t == b && i == 0 then Entry(0, USR_PERM_BITS)
    else if t == b && i == 1 then Entry(b + 1, USR_PERM_BITS)
    else w
  }

  function NormalTable(mem: Memory, b: nat, t: nat): (r: Table)
    requires ValidMemory(mem) && t < |mem|
    ensures |r| == TABLE_SIZE && forall i | 0 <= i < TABLE_SIZE :: r[i] == NormalWord(b, t, i, mem[t][i])
  {
    seq(TABLE_SIZE, i requires 0 <= i < TABLE_SIZE => NormalWord(b, t, i, mem[t][i]))
  }

  function Normal(mem: Memory, b: nat): (r: Memory)
    requires ValidMemory(mem) && b + 1 < |mem|
    ensures ValidMemory(r) && |r| == |mem| && forall f | 0 <= f < |mem| && f != b && f != b + 1 :: r[f] == mem[f]
    ensures forall f: nat, i: nat :: Read(r, f, i) == if i < TABLE_SIZE then NormalWord(b, f, i, Read(mem, f, i)) else 0
  {
    mem[b := NormalTable(mem, b, b)][b + 1 := NormalTable(mem, b, b + 1)]
  }

  /** Where user pages can be asked for: not below the kernel's entry, nor at the stray words. */
  predicate Allowed(path: Path) {
    |path| == 4 && path[0] < 511 && (path[0] == 1 ==> path[1] != 0 && path[1] != 1 && path[1] != 510)
  }

  // ---- What every run of requests keeps

  /** Entry 0 still holds the mark, and nothing is below it, or it has been rewritten. */
  ghost predicate WordZero(mem: Memory, b: nat) {
    (Read(mem, b, 0) == 1 && ZeroWords(mem, 0, 0, TABLE_SIZE)) || Read(mem, b, 0) == Entry(0, USR_PERM_BITS)
  }

  /** Entry 1 still holds the link, and nothing is below it, or it has been rewritten. */
  ghost predicate WordOne(mem: Memory, b: nat) {
    || (Read(mem, b, 1) == (b + 1) * PAGE_SIZE && ZeroWords(mem, b + 1, 2, 510))
    || Read(mem, b, 1) == Entry(b + 1, USR_PERM_BITS)
  }

  /** The kernel's own words. */
  ghost predicate KernelKept(mem: Memory, b: nat) {
    && UpperDone(mem, b) && Read(mem, b + 1, 0) == 1 && Read(mem, b + 1, 1) == (b + 2) * PAGE_SIZE
    && ZeroWords(mem, b + 2, 49, 0) && forall j: nat | j < 49 :: RegionDone(mem, b, j)
  }

  /** The frames of the kernel's lower tables are not used for user tables. */
  ghost predicate FramesApart(mem: Memory, b: nat) {
    forall t | b + 2 <= t < b + 52 :: Unused(mem, b, t)
  }

  /** Whatever is mapped is open to user mode. */
  ghost predicate AllOpen(mem: Memory, b: nat) {
    forall n, r | 0 <= n < PAGES :: FrameOfPage(mem, b, n).Some? ==> PageGrants(mem, b, n, r)
  }

  /** The kernel's words are in place, and without them the user's tables form a tree. */
  ghost predicate Sound(s: Pager, b: nat) {
    && ValidMemory(s.mem) && 0 < b && b + 52 <= s.limit <= FIRST_USER_FRAME && ValidUserAddress(s.start)
    && END_PADDR_FOR_USRS / PAGE_SIZE <= |s.mem|
    && KernelKept(s.mem, b) && WordZero(s.mem, b) && WordOne(s.mem, b)
    && Tree(Normal(s.mem, b), b, s.limit, Slots(0, 511))
    && Resolve(Normal(s.mem, b), b, [0]) == Some(0) && Resolve(Normal(s.mem, b), b, [1]) == Some(b + 1)
  }

  /** What boot establishes and every user request keeps. */
  ghost predicate Running(s: Pager, b: nat) {
    Sound(s, b) && FramesApart(Normal(s.mem, b), b) && AllOpen(Normal(s.mem, b), b)
  }

  // ---- At boot

  lemma NormalFirst(mem: Memory, b: nat, p: Path)
    requires ValidMemory(mem) && 0 < b && b + 1 < |mem| && |p| == 1
    ensures Resolve(Normal(mem, b), b, p)
         == if p[0] == 0 then Some(0) else if p[0] == 1 then Some(b + 1)
            else if p[0] < 511 && Present(Read(mem, b, p[0])) then Some(FrameIn(Read(mem, b, p[0]))) else None
  {
    EntryFields(0, USR_PERM_BITS);
    EntryFields(b + 1, USR_PERM_BITS);
    assert EntryOn(Normal(mem, b), b, p) == Read(Normal(mem, b), b, p[0]);
    assert p[0] >= 511 ==> Read(Normal(mem, b), b, p[0]) == 0;
  }

  /** At boot, nothing is below the two first tables. */
  lemma {:induction false} NormalBoot(mem: Memory, b: nat, p: Path)
    requires Booted(mem, b)
    ensures Resolve(Normal(mem, b), b, p)
         == if p == [] then Some(b) else if p == [0] then Some(0) else if p == [1] then Some(b + 1) else None
    decreases |p|
  {
    if |p| == 1 {
      NormalFirst(mem, b, p);
      assert p == [p[0]];
    } else if |p| > 1 {
      NormalBoot(mem, b, p[..|p| - 1]);
      var i := p[|p| - 1];
      assert Read(Normal(mem, b), 0, i) == 0 && Read(Normal(mem, b), b + 1, i) == 0;
    }
  }

  lemma BootRunning(s: Pager, b: nat)
    requires Booted(s.mem, b) && b + 52 <= s.limit <= FIRST_USER_FRAME && ValidUserAddress(s.start)
    requires END_PADDR_FOR_USRS / PAGE_SIZE <= |s.mem|
    ensures Running(s, b)
    ensures forall n | 0 <= n < PAGES :: FrameOfPage(Normal(s.mem, b), b, n) == None
  {
    var mem, slots := Normal(s.mem, b), Slots(0, 511);
    forall p: Path ensures Resolve(mem, b, p)
      == if p == [] then Some(b) else if p == [0] then Some(0) else if p == [1] then Some(b + 1) else None
    {
      NormalBoot(s.mem, b, p);
    }
    forall p ensures GoodTable(mem, b, s.limit, slots, p) {
      NormalGood(s.mem, b, p);
    }
  }

  lemma NormalGood(mem: Memory, b: nat, p: Path)
    requires Booted(mem, b)
    ensures IsTable(Normal(mem, b), b, p) ==>
              GoodEntries(Normal(mem, b), Slots(0, 511), |p|, Resolve(Normal(mem, b), b, p).value)
  {
    NormalBoot(mem, b, p);
    EntryFields(0, USR_PERM_BITS);
    EntryFields(b + 1, USR_PERM_BITS);
    if IsTable(Normal(mem, b), b, p) {
      var t := Resolve(Normal(mem, b), b, p).value;
      forall i | 0 <= i < TABLE_SIZE && (|p| == 0 ==> i in Slots(0, 511))
        ensures GoodEntry(Normal(mem, b), |p|, Normal(mem, b)[t][i])
      {
        assert Normal(mem, b)[t][i] == Read(Normal(mem, b), t, i);
      }
    }
  }

  // ---- Requests do not tell the memories apart

  /** Entries 0 and 1 name the same tables in both. */
  predicate FirstWords(mem: Memory, b: nat) {
    && Read(mem, b, 0) != 0 && Read(mem, b, 0) / PAGE_SIZE == 0
    && Read(mem, b, 1) != 0 && Read(mem, b, 1) / PAGE_SIZE == b + 1
  }

  lemma RunningFirstWords(s: Pager, b: nat)
    requires Running(s, b)
    ensures FirstWords(s.mem, b)
  {
    EntryFields(0, USR_PERM_BITS);
    EntryFields(b + 1, USR_PERM_BITS);
  }

  function NormalLookup(l: Lookup, b: nat): Lookup
    requires ValidMemory(l.mem) && b + 1 < |l.mem|
  {
    Lookup(Normal(l.mem, b), l.limit, l.ts)
  }

  /** Some look-ups for an allowed path have been made. */
  ghost predicate Looking(l: Lookup, b: nat, path: Path) {
    && ValidMemory(l.mem) && 0 < b && b + 52 <= l.limit && b + 52 <= |l.mem| && FirstWords(l.mem, b) && Allowed(path)
    && OnPath(NormalLookup(l, b), b, Slots(0, 511), path) && Resolve(Normal(l.mem, b), b, [1]) == Some(b + 1)
  }

  /** The kernel's upper tables are met in their own places only. */
  lemma MetTables(l: Lookup, b: nat, path: Path, k: nat)
    requires Looking(l, b, path) && k < |l.ts|
    ensures (l.ts[k] == b <==> k == 0) && (l.ts[k] == b + 1 ==> k == 1 && path[0] == 1)
  {
    var mem := Normal(l.mem, b);
    assert Slot(mem, b, path[..k], l.ts[k]) && Apart(mem, b, Slots(0, 511), [1], path[..k]);
    if l.ts[k] == b + 1 {
      assert IsTable(mem, b, [1]);
      assert path[..k] == [1];
    }
  }

  lemma SameDown(l: Lookup, b: nat, path: Path)
    requires Looking(l, b, path) && |l.ts| < 4
    ensures Down(NormalLookup(l, b), path[|l.ts| - 1]) == NormalLookup(Down(l, path[|l.ts| - 1]), b)
  {
    var k := |l.ts| - 1;
    MetTables(l, b, path, k);
    EntryFields(0, USR_PERM_BITS);
    EntryFields(b + 1, USR_PERM_BITS);
    var e, e' := Read(l.mem, l.ts[k], path[k]), Read(Normal(l.mem, b), l.ts[k], path[k]);
    assert (e == 0 <==> e' == 0) && e / PAGE_SIZE == e' / PAGE_SIZE;
    if e == 0 && l.limit < |l.mem| { NormalFresh(l.mem, b, l.limit); }
  }

  lemma NormalFresh(mem: Memory, b: nat, f: nat)
    requires ValidMemory(mem) && b + 1 < f < |mem|
    ensures Normal(mem[f := ZeroTable()], b) == Normal(mem, b)[f := ZeroTable()]
  {
    SameMemory(Normal(mem[f := ZeroTable()], b), Normal(mem, b)[f := ZeroTable()]);
  }

  lemma StillLooking(l: Lookup, b: nat, path: Path)
    requires Looking(l, b, path) && |l.ts| < 4
    requires Resolve(Normal(l.mem, b), b, path[..|l.ts|]).None? ==> l.limit < |l.mem|
    ensures Looking(Down(l, path[|l.ts| - 1]), b, path)
    ensures SameWalks(Normal(l.mem, b), Normal(Down(l, path[|l.ts| - 1]).mem, b), b)
  {
    SameDown(l, b, path);
    DownOnPath(NormalLookup(l, b), b, Slots(0, 511), path);
    assert SameWalk(Normal(l.mem, b), Normal(Down(l, path[|l.ts| - 1]).mem, b), b, [1]);
  }

  lemma {:induction false} SameDescent(l: Lookup, b: nat, path: Path)
    requires Looking(l, b, path) && 1 <= |l.ts| <= 4 && l.limit + 4 - |l.ts| <= |l.mem|
    ensures var r := Descend(l, path);
            && Looking(r, b, path) && Descend(NormalLookup(l, b), path) == NormalLookup(r, b)
            && SameWalks(Normal(l.mem, b), Normal(r.mem, b), b)
            && forall f | 0 <= f < l.limit && f < |l.mem| :: r.mem[f] == l.mem[f]
    decreases 4 - |l.ts|
  {
    if |l.ts| < 4 {
      var l1 := Down(l, path[|l.ts| - 1]);
      SameDown(l, b, path);
      StillLooking(l, b, path);
      SameDescent(l1, b, path);
      var r := Descend(l1, path);
      assert forall p :: SameWalk(Normal(r.mem, b), Normal(r.mem, b), b, p);
      SameWalksTrans(Normal(l.mem, b), Normal(l1.mem, b), Normal(r.mem, b), Normal(r.mem, b), b);
    }
  }

  /** The look-ups for an allowed path: the same tables in both memories, and no old frame is touched. */
  lemma SameTables(s: Pager, b: nat, path: Path)
    requires Running(s, b) && Allowed(path) && (forall k | 0 <= k < 4 :: path[k] < TABLE_SIZE)
    requires s.limit + 3 <= FIRST_USER_FRAME
    ensures var l := Tables(s.mem, b, s.limit, path);
            && Looking(l, b, path) && |l.ts| == 4 && s.limit <= l.limit <= s.limit + 3
            && Tables(Normal(s.mem, b), b, s.limit, path) == NormalLookup(l, b)
            && SameWalks(Normal(s.mem, b), Normal(l.mem, b), b)
            && forall f | 0 <= f < s.limit :: l.mem[f] == s.mem[f]
  {
    RunningFirstWords(s, b);
    assert GoodTable(Normal(s.mem, b), b, s.limit, Slots(0, 511), []);
    assert Looking(Lookup(s.mem, s.limit, [b]), b, path);
    SameDescent(Lookup(s.mem, s.limit, [b]), b, path);
  }

  /** The four writes stay off the kernel's words. */
  predicate Harmless(b: nat, path: Path, ns: seq<nat>) {
    && |path| == 4 && |ns| == 5 && ns[0] == b && path[0] < 511 && ns[1] != b
    && (path[0] == 0 ==> ns[1] == 0) && (path[0] == 1 ==> ns[1] == b + 1)
    && (ns[1] == b + 1 ==> path[1] != 0 && path[1] != 1 && path[1] != 510)
    && ns[2] != b && ns[2] != b + 1 && ns[3] != b && ns[3] != b + 1
  }

  lemma NormalInstall(mem: Memory, b: nat, path: Path, ns: seq<nat>)
    requires ValidMemory(mem) && b + 1 < |mem| && Harmless(b, path, ns)
    requires (forall k | 0 <= k < 4 :: path[k] < TABLE_SIZE) && forall k | 0 <= k < 5 :: ns[k] < |mem|
    ensures Normal(Install(mem, path, ns, USR_PERM_BITS), b) == Install(Normal(mem, b), path, ns, USR_PERM_BITS)
  {
    SameMemory(Normal(Install(mem, path, ns, USR_PERM_BITS), b), Install(Normal(mem, b), path, ns, USR_PERM_BITS));
  }

  /** The tables looked up for one allowed path are harmless at another below the same entry. */
  lemma LookedHarmless(l: Lookup, b: nat, path: Path, path': Path, frame: nat)
    requires Looking(l, b, path) && |l.ts| == 4 && Allowed(path') && path'[0] == path[0]
    requires Resolve(Normal(l.mem, b), b, [0]) == Some(0)
    ensures Harmless(b, path', l.ts + [frame])
  {
    MetTables(l, b, path, 1);
    MetTables(l, b, path, 2);
    MetTables(l, b, path, 3);
    assert Slot(Normal(l.mem, b), b, path[..1], l.ts[1]) && path[..1] == [path[0]];
  }

  function NormalPager(s: Pager, b: nat): Pager
    requires ValidMemory(s.mem) && b + 1 < |s.mem|
  {
    s.(mem := Normal(s.mem, b))
  }

  /** A request asked for, and a page mapped, below the same allowed entry. */
  ghost predicate Asked(s: Pager, b: nat, addr: nat, va: nat) {
    && Running(s, b) && s.limit + 3 <= FIRST_USER_FRAME
    && Allowed(PathOf(addr)) && Allowed(PathOf(va)) && PathOf(va)[0] == PathOf(addr)[0]
  }

  /** A request to the boot tables is the same request to the tree. */
  lemma RequestCommutes(s: Pager, b: nat, addr: nat, va: nat)
    requires Asked(s, b, addr, va)
    ensures Servable(s, b, addr) && Servable(NormalPager(s, b), b, addr)
    ensures |Request(s, b, addr, va).mem| == |s.mem| && ValidMemory(Request(s, b, addr, va).mem)
    ensures NormalPager(Request(s, b, addr, va), b) == Request(NormalPager(s, b), b, addr, va)
  {
    var path, path' := PathOf(addr), PathOf(va);
    SameTables(s, b, path);
    var l := Tables(s.mem, b, s.limit, path);
    var frame := s.start / PAGE_SIZE;
    assert SameWalk(Normal(s.mem, b), Normal(l.mem, b), b, [0]);
    LookedHarmless(l, b, path, path', frame);
    NormalInstall(l.mem, b, path', l.ts + [frame]);
  }

  // ---- Requests keep what boot establishes

  /** The frames in which the kernel keeps its lower tables are filled. */
  lemma KernelFrames(mem: Memory, b: nat, t: nat)
    requires KernelKept(mem, b) && b + 2 <= t < b + 52
    ensures Read(mem, t, 0) != 0
  {
    if t == b + 2 {
      assert RegionDone(mem, b, 0);
    } else {
      var j := if t == b + 3 then 1 else if t == b + 4 then 0 else t - b - 3;
      assert RegionDone(mem, b, j) && TableOf(b, j) == t;
    }
  }

  /** The tables looked up are not among them. */
  lemma LookedApart(s: Pager, b: nat, path: Path, k: nat)
    requires Running(s, b) && Allowed(path) && (forall i | 0 <= i < 4 :: path[i] < TABLE_SIZE) && k < 4
    requires s.limit + 3 <= FIRST_USER_FRAME
    ensures |Tables(s.mem, b, s.limit, path).ts| == 4
    ensures var t := Tables(s.mem, b, s.limit, path).ts[k]; !(b + 2 <= t < b + 52)
  {
    SameTables(s, b, path);
    var l := Tables(s.mem, b, s.limit, path);
    var t := l.ts[k];
    assert Slot(Normal(l.mem, b), b, path[..k], t) && SameWalk(Normal(s.mem, b), Normal(l.mem, b), b, path[..k]);
    if b + 2 <= t < b + 52 {
      assert Unused(Normal(s.mem, b), b, t);
      KernelFrames(s.mem, b, t);
    }
  }

  /** Which old words a request leaves alone. */
  lemma OldWords(s: Pager, b: nat, addr: nat, va: nat, f: nat, i: nat)
    requires Asked(s, b, addr, va) && f < s.limit
    requires forall k | 0 <= k < 4 :: !Written(Tables(s.mem, b, s.limit, PathOf(addr)).ts, PathOf(va), k, f, i)
    ensures Servable(s, b, addr) && Read(Request(s, b, addr, va).mem, f, i) == Read(s.mem, f, i)
  {
    RequestCommutes(s, b, addr, va);
    SameTables(s, b, PathOf(addr));
    var ts := Tables(s.mem, b, s.limit, PathOf(addr)).ts;
    assert !Written(ts, PathOf(va), 0, f, i) && !Written(ts, PathOf(va), 1, f, i)
        && !Written(ts, PathOf(va), 2, f, i) && !Written(ts, PathOf(va), 3, f, i);
  }

  predicate Written(ts: seq<nat>, path: Path, k: nat, f: nat, i: nat) {
    k < |ts| && k < |path| && ts[k] == f && path[k] == i
  }

  /** The kernel's words are left alone. */
  lemma KernelWordsKept(s: Pager, b: nat, addr: nat, va: nat, f: nat, i: nat)
    requires Asked(s, b, addr, va) && (KernelWord(b, f, i) || b + 2 <= f < b + 52)
    ensures Servable(s, b, addr) && Read(Request(s, b, addr, va).mem, f, i) == Read(s.mem, f, i)
  {
    var path := PathOf(addr);
    SameTables(s, b, path);
    var l := Tables(s.mem, b, s.limit, path);
    assert SameWalk(Normal(s.mem, b), Normal(l.mem, b), b, [0]);
    LookedHarmless(l, b, path, PathOf(va), 0);
    forall k | 0 <= k < 4 ensures !Written(l.ts, PathOf(va), k, f, i) {
      LookedApart(s, b, path, k);
      assert l.ts[k] == (l.ts + [0])[k];
    }
    OldWords(s, b, addr, va, f, i);
  }

  /** Memory in which the kernel's words are the same. */
  ghost predicate SameKernel(m: Memory, m': Memory, b: nat) {
    forall f: nat, i: nat | KernelWord(b, f, i) || b + 2 <= f < b + 52 :: Read(m', f, i) == Read(m, f, i)
  }

  lemma SameKernelKept(m: Memory, m': Memory, b: nat)
    requires KernelKept(m, b) && SameKernel(m, m', b)
    ensures KernelKept(m', b)
  {
    assert KernelWord(b, b, 511) && KernelWord(b, b + 1, 510) && KernelWord(b, b + 1, 0) && KernelWord(b, b + 1, 1);
    forall j: nat | j < 49 ensures RegionDone(m', b, j) {
      assert RegionDone(m, b, j);
    }
  }

  lemma KernelStays(s: Pager, b: nat, addr: nat, va: nat)
    requires Asked(s, b, addr, va)
    ensures Servable(s, b, addr) && SameKernel(s.mem, Request(s, b, addr, va).mem, b)
    ensures KernelKept(Request(s, b, addr, va).mem, b)
  {
    RequestCommutes(s, b, addr, va);
    var mem' := Request(s, b, addr, va).mem;
    forall f: nat, i: nat | KernelWord(b, f, i) || b + 2 <= f < b + 52 ensures Read(mem', f, i) == Read(s.mem, f, i) {
      KernelWordsKept(s, b, addr, va, f, i);
    }
    SameKernelKept(s.mem, mem', b);
  }

  /** The frames of the first two tables are written below their own entries only. */
  lemma FirstTablesApart(s: Pager, b: nat, addr: nat, va: nat, f: nat, i: nat)
    requires Asked(s, b, addr, va)
    requires (f == 0 && PathOf(addr)[0] != 0) || (f == b + 1 && PathOf(addr)[0] != 1) || (f == b && i != PathOf(va)[0])
    ensures Servable(s, b, addr) && Read(Request(s, b, addr, va).mem, f, i) == Read(s.mem, f, i)
  {
    var path := PathOf(addr);
    SameTables(s, b, path);
    var l, mem := Tables(s.mem, b, s.limit, path), Normal(Tables(s.mem, b, s.limit, path).mem, b);
    assert SameWalk(Normal(s.mem, b), mem, b, [0]);
    forall k | 0 <= k < 4 ensures !Written(l.ts, PathOf(va), k, f, i) {
      MetTables(l, b, path, k);
      assert Slot(mem, b, path[..k], l.ts[k]) && Apart(mem, b, Slots(0, 511), [0], path[..k]);
      assert IsTable(mem, b, [0]) && (path[..k] == [0] ==> path[0] == 0);
    }
    OldWords(s, b, addr, va, f, i);
  }

  lemma FirstWordsStay(s: Pager, b: nat, addr: nat, va: nat)
    requires Asked(s, b, addr, va)
    ensures Servable(s, b, addr)
    ensures WordZero(Request(s, b, addr, va).mem, b) && WordOne(Request(s, b, addr, va).mem, b)
  {
    RequestCommutes(s, b, addr, va);
    var mem', path := Request(s, b, addr, va).mem, PathOf(addr);
    if path[0] != 0 {
      FirstTablesApart(s, b, addr, va, b, 0);
      forall i: nat ensures Read(mem', 0, i) == Read(s.mem, 0, i) {
        FirstTablesApart(s, b, addr, va, 0, i);
      }
    }
    if path[0] != 1 {
      FirstTablesApart(s, b, addr, va, b, 1);
      var pdp := b + 1;
      forall i: nat ensures Read(mem', pdp, i) == Read(s.mem, pdp, i) {
        FirstTablesApart(s, b, addr, va, pdp, i);
      }
    }
    RootWord(s, b, addr, va);
  }

  /** The entry below which the page lies is rewritten. */
  lemma RootWord(s: Pager, b: nat, addr: nat, va: nat)
    requires Asked(s, b, addr, va)
    ensures Servable(s, b, addr)
    ensures PathOf(va)[0] == 0 ==> Read(Request(s, b, addr, va).mem, b, 0) == Entry(0, USR_PERM_BITS)
    ensures PathOf(va)[0] == 1 ==> Read(Request(s, b, addr, va).mem, b, 1) == Entry(b + 1, USR_PERM_BITS)
  {
    RequestCommutes(s, b, addr, va);
    var path := PathOf(addr);
    SameTables(s, b, path);
    var l := Tables(s.mem, b, s.limit, path);
    assert SameWalk(Normal(s.mem, b), Normal(l.mem, b), b, [0]);
    LookedHarmless(l, b, path, PathOf(va), s.start / PAGE_SIZE);
  }

  /** No user table has moved into a kernel frame. */
  lemma FramesStayApart(s: Pager, b: nat, addr: nat, va: nat)
    requires Asked(s, b, addr, va) && PathOf(va)[..3] == PathOf(addr)[..3]
    ensures Servable(s, b, addr) && ValidMemory(Request(s, b, addr, va).mem) && b + 1 < |Request(s, b, addr, va).mem|
    ensures FramesApart(Normal(Request(s, b, addr, va).mem, b), b)
  {
    RequestCommutes(s, b, addr, va);
    var path, path' := PathOf(addr), PathOf(va);
    SameTables(s, b, path);
    var l := Tables(s.mem, b, s.limit, path);
    var ns, m := l.ts + [s.start / PAGE_SIZE], Normal(l.mem, b);
    LocatedSibling(m, b, path, path', l.ts);
    assert ns[..4] == l.ts;
    forall t | b + 2 <= t < b + 52 ensures Unused(Normal(Request(s, b, addr, va).mem, b), b, t) {
      forall p | IsTable(Install(m, path', ns, USR_PERM_BITS), b, p)
        ensures Resolve(Install(m, path', ns, USR_PERM_BITS), b, p).value != t
      {
        ResolveAfterInstall(m, b, path', ns, USR_PERM_BITS, l.limit, Slots(0, 511), p);
        LookedApart(s, b, path, |p|);
        assert SameWalk(Normal(s.mem, b), m, b, p) && Unused(Normal(s.mem, b), b, t);
      }
    }
  }
}
