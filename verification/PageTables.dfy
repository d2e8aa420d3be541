/** Four-level page tables in physical memory, as the processor walks them
    (Intel SDM volume 3A, section 4.5), and the tree shape the kernel keeps.

    A table, and a mapped page, is named by the path of indices that leads to it from the PML4 table:
    the empty path is the PML4 table, paths of length 1 to 3 are lower tables, paths of length 4 are pages. */
module PageTables {
  import opened Options
  import opened Addressing

  type Table = seq<nat>

  /** Physical memory: frames of 512 64-bit words. */
  type Memory = seq<Table>

  type Path = seq<nat>

  predicate ValidMemory(mem: Memory) {
    && |mem| <= 0x100_0000_0000
    && forall f | 0 <= f < |mem| :: |mem[f]| == TABLE_SIZE
  }

  /** What memset leaves in a page. */
  function ZeroTable(): (t: Table)
    ensures |t| == TABLE_SIZE && forall i | 0 <= i < TABLE_SIZE :: t[i] == 0
  {
    seq(TABLE_SIZE, _ => 0)
  }

  // ---- Entries

  predicate Present(e: nat) { e % 2 == 1 }

  /** The frame number in bits 51:12 of an entry. */
  function FrameIn(e: nat): nat { e / PAGE_SIZE % 0x100_0000_0000 }

  datatype Right = Write | User

  /** Bit 1 of an entry permits writes, bit 2 user-mode accesses. */
  predicate Has(e: nat, r: Right) {
    match r
    case Write => e / 2 % 2 == 1
    case User => e / 4 % 2 == 1
  }

  predicate IsPerm(perm: nat) { perm == KERN_PERM_BITS || perm == COW_PERM_BITS || perm == USR_PERM_BITS }

  function Entry(frame: nat, perm: nat): nat { frame * PAGE_SIZE + perm }

  lemma EntryFields(frame: nat, perm: nat)
    requires frame < 0x100_0000_0000 && IsPerm(perm)
    ensures Entry(frame, perm) / PAGE_SIZE == frame == FrameIn(Entry(frame, perm))
    ensures Entry(frame, perm) % PAGE_SIZE == perm
    ensures Present(Entry(frame, perm))
    ensures forall r :: Has(Entry(frame, perm), r) == Has(perm, r)
  {
    var e := Entry(frame, perm);
    Euclid(e, PAGE_SIZE, frame, perm);
    Euclid(e, 2, 0x800 * frame + perm / 2, 1);
    Euclid(e, 4, 0x400 * frame + perm / 4, perm % 4);
    Euclid(0x800 * frame + perm / 2, 2, 0x400 * frame + perm / 4, perm / 2 % 2);
    Euclid(0x400 * frame + perm / 4, 2, 0x200 * frame, perm / 4);
  }

  // ---- The walk

  /** The word at index `i` of frame `t`; memory that does not exist reads as not present. */
  function Read(mem: Memory, t: nat, i: nat): nat {
    if t < |mem| && i < |mem[t]| then mem[t][i] else 0
  }

  /** The entry read by the last step of the walk along `p`, 0 if the walk stops before it. */
  function EntryOn(mem: Memory, root: nat, p: Path): nat
    requires p != []
    decreases |p|, 0
  {
    match Resolve(mem, root, p[..|p| - 1])
    case None => 0
    case Some(t) => Read(mem, t, p[|p| - 1])
  }

  /** The frame the walk along `p` ends in. */
  function Resolve(mem: Memory, root: nat, p: Path): Option<nat>
    decreases |p|, 1
  {
    if p == [] then Some(root)
    else
      var e := EntryOn(mem, root, p);
      if Present(e) then Some(FrameIn(e)) else None
  }

  /** A right holds for a page when every entry on its walk grants it. */
  ghost predicate Grants(mem: Memory, root: nat, p: Path, r: Right)
  {
    forall k | 1 <= k <= |p| :: Has(EntryOn(mem, root, p[..k]), r)
  }

  datatype Translation = Fault | Page(frame: nat, writable: bool, user: bool)

  /** What the processor does with linear address `va`. */
  ghost function Walk(mem: Memory, root: nat, va: nat): Translation {
    var p := PathOf(va);
    match Resolve(mem, root, p)
    case None => Fault
    case Some(f) => Page(f, Grants(mem, root, p, Write), Grants(mem, root, p, User))
  }

  /** Following three known entries. */
  lemma FollowEntries(m: Memory, root: nat, q: Path, t1: nat, t2: nat, t3: nat, perm: nat)
    requires |q| == 4 && IsPerm(perm) && t1 < 0x100_0000_0000 && t2 < 0x100_0000_0000 && t3 < 0x100_0000_0000
    requires Read(m, root, q[0]) == Entry(t1, perm)
    requires Read(m, t1, q[1]) == Entry(t2, perm)
    requires Read(m, t2, q[2]) == Entry(t3, perm)
    ensures EntryOn(m, root, q[..1]) == Entry(t1, perm)
    ensures EntryOn(m, root, q[..2]) == Entry(t2, perm)
    ensures EntryOn(m, root, q[..3]) == Entry(t3, perm)
    ensures EntryOn(m, root, q) == Read(m, t3, q[3])
  {
    EntryFields(t1, perm);
    EntryFields(t2, perm);
    EntryFields(t3, perm);
    assert q[..1][..0] == [] && q[..2][..1] == q[..1] && q[..3][..2] == q[..2];
    assert EntryOn(m, root, q[..1]) == Read(m, root, q[0]);
    assert EntryOn(m, root, q[..2]) == Read(m, t1, q[1]);
    assert EntryOn(m, root, q[..3]) == Read(m, t2, q[2]);
  }

  // ---- The tree invariant

  ghost predicate IsTable(mem: Memory, root: nat, p: Path) {
    |p| <= 3 && Resolve(mem, root, p).Some?
  }

  // Not every PML4 entry need belong to the tree: `slots` names those that do.

  ghost predicate Inside(slots: set<nat>, p: Path) {
    p == [] || p[0] in slots
  }

  /** A table of the tree is reached by one path only, and not from outside the tree. */
  ghost predicate Apart(mem: Memory, root: nat, slots: set<nat>, p: Path, q: Path) {
    Inside(slots, p) && IsTable(mem, root, p) && IsTable(mem, root, q) && Resolve(mem, root, p) == Resolve(mem, root, q)
    ==> p == q
  }

  predicate IsUserFrame(f: nat) {
    START_PADDR_FOR_USRS / PAGE_SIZE <= f < END_PADDR_FOR_USRS / PAGE_SIZE
  }

  /** An entry of the table at a path of length `depth`: zero, or present with known permissions;
      an entry that maps a page to user mode maps a user frame. */
  predicate GoodEntry(mem: Memory, depth: nat, e: nat) {
    e != 0 ==>
      && e / PAGE_SIZE < |mem| && IsPerm(e % PAGE_SIZE)
      && (depth == 3 && Has(e, User) ==> IsUserFrame(e / PAGE_SIZE))
  }

  predicate GoodEntries(mem: Memory, slots: set<nat>, depth: nat, t: nat) {
    t < |mem| && forall i | 0 <= i < |mem[t]| && (depth == 0 ==> i in slots) :: GoodEntry(mem, depth, mem[t][i])
  }

  /** The table at path `p` lies below frame `limit`, and if it is in the tree it holds only good entries. */
  ghost predicate GoodTable(mem: Memory, root: nat, limit: nat, slots: set<nat>, p: Path) {
    IsTable(mem, root, p) ==>
      && Resolve(mem, root, p).value < limit
      && (Inside(slots, p) ==> GoodEntries(mem, slots, |p|, Resolve(mem, root, p).value))
  }

  /** The tables reached from `root` through `slots` form a tree; all tables are frames below `limit`. */
  ghost predicate Tree(mem: Memory, root: nat, limit: nat, slots: set<nat>) {
    && (forall p :: GoodTable(mem, root, limit, slots, p))
    && (forall p, q :: Apart(mem, root, slots, p, q))
  }

  /** The PML4 entries from `first` up to `end`. */
  function Slots(first: nat, end: nat): (slots: set<nat>)
    ensures forall s: nat :: s in slots <==> first <= s < end
    decreases end - first
  {
    if first >= end then {} else {first} + Slots(first + 1, end)
  }
}
