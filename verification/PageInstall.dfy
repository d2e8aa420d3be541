/** What writing one page mapping, with whatever tables it needs, does to every walk. */
module PageInstall {
  import opened Options
  import opened Addressing
  import opened PageTables

  function Put(table: Table, i: nat, word: nat): Table
    requires i < |table|
  {
    table[i := word]
  }

  function Store(mem: Memory, t: nat, i: nat, word: nat): (r: Memory)
    requires t < |mem| && i < |mem[t]|
    ensures |r| == |mem| && (ValidMemory(mem) ==> ValidMemory(r))
    ensures forall f, j :: Read(r, f, j) == if f == t && j == i then word else Read(mem, f, j)
  {
    mem[t := Put(mem[t], i, word)]
  }

  /** No table of the tree lives in frame `t`. */
  ghost predicate Unused(mem: Memory, root: nat, t: nat) {
    forall p | IsTable(mem, root, p) :: Resolve(mem, root, p).value != t
  }

  /** Frame `t` is the table at path `p`, or a zeroed frame ready to become it. */
  ghost predicate Slot(mem: Memory, root: nat, p: Path, t: nat)
    requires t < |mem|
  {
    match Resolve(mem, root, p)
    case Some(f) => f == t
    case None => Unused(mem, root, t) && mem[t] == ZeroTable()
  }

  /** `ts` names the first tables on `path`, from the PML4 table down. */
  ghost predicate Located(mem: Memory, root: nat, path: Path, ts: seq<nat>) {
    && |path| == 4 && (forall k | 0 <= k < 4 :: path[k] < TABLE_SIZE)
    && 1 <= |ts| <= 4 && ts[0] == root
    && (forall k | 0 <= k < |ts| :: ts[k] < |mem| && Slot(mem, root, path[..k], ts[k]))
    && (forall j, k | 0 <= j < k < |ts| :: ts[j] != ts[k])
  }

  /** `ns` names, from the PML4 table down to the page, the frames that shall lie on `path`. */
  ghost predicate Linkable(mem: Memory, root: nat, path: Path, ns: seq<nat>) {
    |ns| == 5 && ns[4] < |mem| && Located(mem, root, path, ns[..4])
  }

  /** The mapping goes into a tree, below a PML4 entry of the tree. */
  ghost predicate Installable(mem: Memory, root: nat, path: Path, ns: seq<nat>, perm: nat, limit: nat, slots: set<nat>)
  {
    && ValidMemory(mem) && Tree(mem, root, limit, slots)
    && Linkable(mem, root, path, ns) && path[0] in slots && IsPerm(perm)
  }

  /** The four entry writes, page-table entry first. */
  function Install(mem: Memory, path: Path, ns: seq<nat>, perm: nat): (r: Memory)
    requires ValidMemory(mem) && |path| == 4 && |ns| == 5
    requires forall k | 0 <= k < 4 :: path[k] < TABLE_SIZE
    requires forall k | 0 <= k < 5 :: ns[k] < |mem|
    ensures ValidMemory(r) && |r| == |mem|
  {
    Store(Store(Store(Store(mem, ns[3], path[3], Entry(ns[4], perm)),
                      ns[2], path[2], Entry(ns[3], perm)),
                ns[1], path[1], Entry(ns[2], perm)),
          ns[0], path[0], Entry(ns[1], perm))
  }

  /** The exact effect of an installation: along `path` every entry is the new one,
      and every other entry any walk can read is what it was. */
  lemma {:induction false} EntryAfterInstall(mem: Memory, root: nat, path: Path, ns: seq<nat>, perm: nat,
                                             limit: nat, slots: set<nat>, p: Path)
    requires Installable(mem, root, path, ns, perm, limit, slots)
    requires 1 <= |p| <= 4
    ensures EntryOn(Install(mem, path, ns, perm), root, p)
         == if p <= path then Entry(ns[|p|], perm) else EntryOn(mem, root, p)
    decreases |p|, 0
  {
    var q, i := p[..|p| - 1], p[|p| - 1];
    ResolveAfterInstall(mem, root, path, ns, perm, limit, slots, q);
    if q <= path {
      assert q == path[..|q|] && Slot(mem, root, q, ns[..4][|q|]);
      assert p <= path <==> i == path[|q|];
    } else {
      assert !(p <= path);
      var t := Resolve(mem, root, q);
      if t.Some? {
        assert GoodTable(mem, root, limit, slots, q);
        forall k | 0 <= k < 4 ensures t.value != ns[k] {
          assert Slot(mem, root, path[..k], ns[..4][k]) && Apart(mem, root, slots, path[..k], q);
        }
      }
    }
  }

  /** The same for the frame a walk ends in. */
  lemma {:induction false} ResolveAfterInstall(mem: Memory, root: nat, path: Path, ns: seq<nat>, perm: nat,
                                               limit: nat, slots: set<nat>, p: Path)
    requires Installable(mem, root, path, ns, perm, limit, slots)
    requires |p| <= 4
    ensures Resolve(Install(mem, path, ns, perm), root, p)
         == if p <= path then Some(ns[|p|]) else Resolve(mem, root, p)
    decreases |p|, 1
  {
    if p != [] {
      EntryAfterInstall(mem, root, path, ns, perm, limit, slots, p);
      if p <= path { EntryFields(ns[|p|], perm); }
    }
  }

  /** The tree stays a tree, whichever of the tables are new. */
  lemma TreeAfterInstall(mem: Memory, root: nat, path: Path, ns: seq<nat>, perm: nat, limit: nat, slots: set<nat>)
    requires Installable(mem, root, path, ns, perm, limit, slots)
    requires forall k | 0 <= k < 4 :: ns[k] < limit
    requires Has(perm, User) ==> IsUserFrame(ns[4])
    ensures Tree(Install(mem, path, ns, perm), root, limit, slots)
  {
    var mem' := Install(mem, path, ns, perm);
    forall p ensures GoodTable(mem', root, limit, slots, p) {
      if IsTable(mem', root, p) { GoodTableAfterInstall(mem, root, path, ns, perm, limit, slots, p); }
    }
    forall p, q ensures Apart(mem', root, slots, p, q) {
      if |p| <= 3 && |q| <= 3 {
        ResolveAfterInstall(mem, root, path, ns, perm, limit, slots, p);
        ResolveAfterInstall(mem, root, path, ns, perm, limit, slots, q);
        assert Apart(mem, root, slots, p, q);
        if p <= path { assert p == path[..|p|] && Slot(mem, root, p, ns[..4][|p|]); }
        if q <= path { assert q == path[..|q|] && Slot(mem, root, q, ns[..4][|q|]); }
      }
    }
  }

  lemma GoodTableAfterInstall(mem: Memory, root: nat, path: Path, ns: seq<nat>, perm: nat, limit: nat, slots: set<nat>,
                              p: Path)
    requires Installable(mem, root, path, ns, perm, limit, slots)
    requires forall k | 0 <= k < 4 :: ns[k] < limit
    requires Has(perm, User) ==> IsUserFrame(ns[4])
    requires IsTable(Install(mem, path, ns, perm), root, p)
    ensures GoodTable(Install(mem, path, ns, perm), root, limit, slots, p)
  {
    var mem' := Install(mem, path, ns, perm);
    ResolveAfterInstall(mem, root, path, ns, perm, limit, slots, p);
    var t := Resolve(mem', root, p).value;
    assert GoodTable(mem, root, limit, slots, p);
    if p <= path { assert p == path[..|p|] && Slot(mem, root, p, ns[..4][|p|]); }
    if Inside(slots, p) {
      forall i | 0 <= i < |mem'[t]| && (|p| == 0 ==> i in slots) ensures GoodEntry(mem', |p|, mem'[t][i]) {
        GoodEntryAfterInstall(mem, root, path, ns, perm, limit, slots, p, t, i);
      }
    }
  }

  lemma GoodEntryAfterInstall(mem: Memory, root: nat, path: Path, ns: seq<nat>, perm: nat, limit: nat, slots: set<nat>,
                              p: Path, t: nat, i: nat)
    requires Installable(mem, root, path, ns, perm, limit, slots)
    requires Has(perm, User) ==> IsUserFrame(ns[4])
    requires |p| <= 3 && Inside(slots, p) && Resolve(Install(mem, path, ns, perm), root, p) == Some(t)
    requires t < |mem| && i < TABLE_SIZE && (|p| == 0 ==> i in slots)
    requires p <= path ==> Slot(mem, root, p, t)
    ensures GoodEntry(Install(mem, path, ns, perm), |p|, Install(mem, path, ns, perm)[t][i])
  {
    var mem', r := Install(mem, path, ns, perm), p + [i];
    ResolveAfterInstall(mem, root, path, ns, perm, limit, slots, p);
    EntryAfterInstall(mem, root, path, ns, perm, limit, slots, r);
    assert GoodTable(mem, root, limit, slots, p);
    assert r[..|r| - 1] == p;
    assert EntryOn(mem', root, r) == mem'[t][i];
    if r <= path {
      EntryFields(ns[|r|], perm);
    } else if Resolve(mem, root, p).Some? {
      assert EntryOn(mem, root, r) == mem[t][i];
    }
  }

  /** The exact rights after an installation: the entries shared with `path` now grant what `perm` grants. */
  lemma GrantsAfterInstall(mem: Memory, root: nat, path: Path, ns: seq<nat>, perm: nat, limit: nat, slots: set<nat>,
                           p: Path, r: Right)
    requires Installable(mem, root, path, ns, perm, limit, slots)
    requires |p| == 4
    ensures Grants(Install(mem, path, ns, perm), root, p, r)
       <==> (p[0] == path[0] ==> Has(perm, r))
            && forall k | 1 <= k <= 4 :: p[..k] <= path || Has(EntryOn(mem, root, p[..k]), r)
  {
    var mem' := Install(mem, path, ns, perm);
    forall k | 1 <= k <= 4
      ensures Has(EntryOn(mem', root, p[..k]), r)
           == if p[..k] <= path then Has(perm, r) else Has(EntryOn(mem, root, p[..k]), r)
    {
      EntryAfterInstall(mem, root, path, ns, perm, limit, slots, p[..k]);
      EntryFields(ns[k], perm);
    }
    assert p[..1] <= path <==> p[0] == path[0];
    forall k | 1 <= k <= 4 ensures p[..k] <= path ==> p[0] == path[0] {}
    assert Grants(mem', root, p, r) ==> Has(EntryOn(mem', root, p[..1]), r);
  }

  /** Memory that differs only in frames at or above `limit` looks the same to every walk. */
  lemma {:induction false} EntryBelow(mem: Memory, mem': Memory, root: nat, limit: nat, slots: set<nat>, p: Path)
    requires Tree(mem, root, limit, slots) && |mem| == |mem'| && limit <= |mem|
    requires forall f | 0 <= f < limit :: mem'[f] == mem[f]
    requires |p| <= 4
    ensures Resolve(mem', root, p) == Resolve(mem, root, p)
    ensures p != [] ==> EntryOn(mem', root, p) == EntryOn(mem, root, p)
    decreases |p|
  {
    if p != [] {
      var q := p[..|p| - 1];
      EntryBelow(mem, mem', root, limit, slots, q);
      assert GoodTable(mem, root, limit, slots, q);
    }
  }

  ghost predicate SameWalk(mem: Memory, mem': Memory, root: nat, p: Path) {
    |p| <= 4 ==>
      Resolve(mem', root, p) == Resolve(mem, root, p) && (p != [] ==> EntryOn(mem', root, p) == EntryOn(mem, root, p))
  }

  /** No walk can tell the two memories apart. */
  ghost predicate SameWalks(mem: Memory, mem': Memory, root: nat) {
    forall p :: SameWalk(mem, mem', root, p)
  }

  lemma SameWalksTrans(m0: Memory, m1: Memory, m2: Memory, m3: Memory, root: nat)
    requires SameWalks(m0, m1, root) && SameWalks(m1, m2, root) && SameWalks(m2, m3, root)
    ensures SameWalks(m0, m3, root)
  {
    forall p ensures SameWalk(m0, m3, root, p) {
      assert SameWalk(m0, m1, root, p) && SameWalk(m1, m2, root, p) && SameWalk(m2, m3, root, p);
    }
  }

  lemma TreeBelow(mem: Memory, mem': Memory, root: nat, limit: nat, limit': nat, slots: set<nat>)
    requires Tree(mem, root, limit, slots) && |mem| == |mem'| && limit <= |mem| && limit <= limit'
    requires forall f | 0 <= f < limit :: mem'[f] == mem[f]
    ensures Tree(mem', root, limit', slots) && SameWalks(mem, mem', root)
  {
    forall p ensures SameWalk(mem, mem', root, p) {
      if |p| <= 4 { EntryBelow(mem, mem', root, limit, slots, p); }
    }
    forall p ensures GoodTable(mem', root, limit', slots, p) {
      assert GoodTable(mem, root, limit, slots, p) && SameWalk(mem, mem', root, p);
    }
    forall p, q ensures Apart(mem', root, slots, p, q) {
      assert Apart(mem, root, slots, p, q) && SameWalk(mem, mem', root, p) && SameWalk(mem, mem', root, q);
    }
  }

  /** In a tree, a nonzero entry of the last located table leads to the next table on the path. */
  lemma FoundTable(mem: Memory, root: nat, limit: nat, slots: set<nat>, path: Path, ts: seq<nat>)
    requires ValidMemory(mem) && Tree(mem, root, limit, slots)
    requires Located(mem, root, path, ts) && path[0] in slots && |ts| < 4
    ensures var e := Read(mem, ts[|ts| - 1], path[|ts| - 1]);
            && (e != 0 <==> Resolve(mem, root, path[..|ts|]).Some?)
            && (e != 0 ==> e / PAGE_SIZE < limit && Located(mem, root, path, ts + [e / PAGE_SIZE]))
  {
    var n := |ts|;
    var t, q, p := ts[n - 1], path[..n - 1], path[..n];
    var e := Read(mem, t, path[n - 1]);
    assert p[..n - 1] == q && p[n - 1] == path[n - 1];
    assert Slot(mem, root, q, t) && GoodTable(mem, root, limit, slots, q) && GoodTable(mem, root, limit, slots, p);
    if e != 0 {
      assert Resolve(mem, root, q) == Some(t);
      EntryFields(e / PAGE_SIZE, e % PAGE_SIZE);
      assert e == Entry(e / PAGE_SIZE, e % PAGE_SIZE);
      forall k | 0 <= k < n ensures ts[k] != e / PAGE_SIZE {
        assert Slot(mem, root, path[..k], ts[k]) && Apart(mem, root, slots, path[..k], p);
      }
    }
  }

  /** A zeroed frame above the tree can stand in for the next table. */
  lemma FreshTable(mem: Memory, root: nat, limit: nat, slots: set<nat>, path: Path, ts: seq<nat>)
    requires ValidMemory(mem) && limit < |mem| && Tree(mem, root, limit, slots)
    requires Located(mem, root, path, ts) && path[0] in slots && |ts| < 4 && Resolve(mem, root, path[..|ts|]).None?
    requires forall k | 0 <= k < |ts| :: ts[k] < limit
    ensures Located(mem[limit := ZeroTable()], root, path, ts + [limit])
    ensures Tree(mem[limit := ZeroTable()], root, limit + 1, slots)
    ensures SameWalks(mem, mem[limit := ZeroTable()], root)
  {
    var mem' := mem[limit := ZeroTable()];
    TreeBelow(mem, mem', root, limit, limit + 1, slots);
    forall p | IsTable(mem', root, p) ensures Resolve(mem', root, p).value != limit {
      assert GoodTable(mem, root, limit, slots, p) && SameWalk(mem, mem', root, p);
    }
    assert SameWalk(mem, mem', root, path[..|ts|]);
    forall k | 0 <= k < |ts| ensures Slot(mem', root, path[..k], ts[k]) {
      assert Slot(mem, root, path[..k], ts[k]) && SameWalk(mem, mem', root, path[..k]);
      forall p | IsTable(mem', root, p)
        ensures IsTable(mem, root, p) && Resolve(mem', root, p) == Resolve(mem, root, p)
      {
        assert SameWalk(mem, mem', root, p);
      }
    }
  }

  /** Once installed, the tables on the path are found again. */
  lemma LocatedAfterInstall(mem: Memory, root: nat, path: Path, ns: seq<nat>, perm: nat, limit: nat, slots: set<nat>)
    requires Installable(mem, root, path, ns, perm, limit, slots)
    ensures Located(Install(mem, path, ns, perm), root, path, ns[..4])
    ensures forall k | 0 <= k < 4 :: Resolve(Install(mem, path, ns, perm), root, path[..k]) == Some(ns[k])
  {
    forall k | 0 <= k < 4 ensures Resolve(Install(mem, path, ns, perm), root, path[..k]) == Some(ns[k]) {
      ResolveAfterInstall(mem, root, path, ns, perm, limit, slots, path[..k]);
    }
  }

  /** Locating tables does not depend on the last index. */
  lemma LocatedSibling(mem: Memory, root: nat, path: Path, path': Path, ts: seq<nat>)
    requires Located(mem, root, path, ts) && |path'| == 4 && path'[..3] == path[..3] && path'[3] < TABLE_SIZE
    ensures Located(mem, root, path', ts)
  {
    forall k | 0 <= k < |ts| ensures Slot(mem, root, path'[..k], ts[k]) {
      assert path'[..k] == path'[..3][..k] == path[..k];
    }
    forall k | 0 <= k < 4 ensures path'[k] < TABLE_SIZE {
      if k < 3 { assert path'[k] == path'[..3][k] == path[k]; }
    }
  }
}
