/** The list of mapped areas of a process (vm_area_struct), how malloc_vma extends it and how fork copies it. */
module Vma {
  import opened Options

  /** A node's place: list nodes are 72 bytes long and 56 of them fit in the page their list is given. */
  datatype Ref = Ref(page: nat, slot: nat)

  const SLOTS: nat := 56

  /** The fields fork copies. */
  datatype Area = Area(start: nat, end: nat, mmsz: nat, file: nat, flags: nat, offset: nat)

  datatype Node = Node(area: Area, next: Option<Ref>)

  type Pages = seq<seq<Node>>

  ghost predicate Valid(pages: Pages) { forall p | 0 <= p < |pages| :: |pages[p]| == SLOTS }

  predicate InPages(pages: Pages, r: Ref) { r.page < |pages| && r.slot < |pages[r.page]| }

  function At(pages: Pages, r: Ref): Node
    requires InPages(pages, r)
  {
    pages[r.page][r.slot]
  }

  function Fill(pages: Pages, r: Ref, node: Node): Pages
    requires InPages(pages, r)
  {
    pages[r.page := pages[r.page][r.slot := node]]
  }

  /** `chain` is the list from `head` on, in order. */
  ghost predicate IsChain(pages: Pages, head: Option<Ref>, chain: seq<Ref>) {
    && head == Link(chain, 0)
    && forall k | 0 <= k < |chain| :: Linked(pages, chain, k)
  }

  ghost predicate Linked(pages: Pages, chain: seq<Ref>, k: nat)
    requires k < |chain|
  {
    InPages(pages, chain[k]) && At(pages, chain[k]).next == Link(chain, k + 1)
  }

  function Link(chain: seq<Ref>, k: nat): Option<Ref> { if k < |chain| then Some(chain[k]) else None }

  /** The first `n` slots of a page. */
  function Run(page: nat, n: nat): (chain: seq<Ref>)
    ensures |chain| == n && forall k | 0 <= k < n :: chain[k] == Ref(page, k)
  {
    seq(n, k requires 0 <= k < n => Ref(page, k))
  }

  /** The two chains hold the same areas in the same order. */
  ghost predicate SameAreas(left: Pages, lefts: seq<Ref>, right: Pages, rights: seq<Ref>) {
    |lefts| == |rights| && forall k | 0 <= k < |lefts| :: SameArea(left, lefts[k], right, rights[k])
  }

  ghost predicate SameArea(left: Pages, l: Ref, right: Pages, r: Ref) {
    InPages(left, l) && InPages(right, r) && At(left, l).area == At(right, r).area
  }

  /** The pages after `n` areas of the chain have been copied: a new page with a list of the `n`, all else as it was. */
  ghost predicate Copied(was: Pages, now: Pages, chain: seq<Ref>, n: nat)
    requires n <= |chain|
  {
    && |now| == |was| + (if n == 0 then 0 else 1) && now[..|was|] == was
    && Valid(now) && n <= SLOTS
    && IsChain(now, Link(Run(|was|, n), 0), Run(|was|, n))
    && SameAreas(now, Run(|was|, n), was, chain[..n])
  }

  /** What one pass of fork's loop does to the pages, in terms of values. */
  function AddArea(now: Pages, page: nat, n: nat, raw: seq<Node>, area: Area): Pages
    requires Valid(now) && |raw| == SLOTS && n < SLOTS && page < |now| + (if n == 0 then 1 else 0)
    requires n == 0 ==> page == |now|
  {
    var room := if n == 0 then now + [raw]
                else Fill(now, Ref(page, n - 1), At(now, Ref(page, n - 1)).(next := Some(Ref(page, n))));
    Fill(room, Ref(page, n), Node(area, None))
  }

  lemma CopyOne(was: Pages, now: Pages, chain: seq<Ref>, n: nat, raw: seq<Node>)
    requires n < |chain| && n < SLOTS && |raw| == SLOTS && Copied(was, now, chain, n) && InPages(was, chain[n])
    ensures Copied(was, AddArea(now, |was|, n, raw, At(was, chain[n]).area), chain, n + 1)
  {
    var next := AddArea(now, |was|, n, raw, At(was, chain[n]).area);
    var before, run := Run(|was|, n), Run(|was|, n + 1);
    forall k | 0 <= k < n + 1
      ensures Linked(next, run, k) && SameArea(next, run[k], was, chain[..n + 1][k])
    {
      assert k < n ==> Linked(now, before, k) && SameArea(now, before[k], was, chain[..n][k]);
    }
  }

  class Mm {
    var mmap: Option<Ref>
    var count: nat

    constructor ()
      ensures mmap == None && count == 0
    {
      mmap, count := None, 0;
    }
  }

  class AreaPages {
    var pages: Pages

    constructor ()
      ensures pages == []
    {
      pages := [];
    }

    /** malloc_vma: a new page for the first node, the slot behind the last node for every other. The caller
        fills the node in; `raw` is what the new page happens to hold. */
    method MallocVma(mm: Mm, raw: seq<Node>, ghost page: nat) returns (vm: Ref)
      requires Valid(pages) && |raw| == SLOTS && mm.count < SLOTS
      requires IsChain(pages, mm.mmap, Run(page, mm.count)) && (mm.count == 0 ==> page == |pages|)
      modifies `pages, mm
      ensures mm.count == old(mm.count) + 1 && vm == Ref(page, old(mm.count)) && mm.mmap == Some(Ref(page, 0))
      ensures InPages(pages, vm) && (old(mm.count) == 0 || page < |old(pages)|)
      ensures forall area :: Fill(pages, vm, Node(area, None)) == AddArea(old(pages), page, old(mm.count), raw, area)
    {
      ghost var n := mm.count;
      if mm.mmap.None? {
        vm := Ref(|pages|, 0);
        pages := pages + [raw];
        mm.mmap := Some(vm);
        mm.count := mm.count + 1;
        return vm;
      }
      vm := mm.mmap.value;
      assert Linked(pages, Run(page, n), 0);
      while At(pages, vm).next.Some?
        invariant vm.page == page && vm.slot < n && Linked(pages, Run(page, n), vm.slot)
        decreases n - vm.slot
      {
        vm := At(pages, vm).next.value;
      }
      var next := Ref(vm.page, vm.slot + 1);
      pages := Fill(pages, vm, At(pages, vm).(next := Some(next)));
      mm.count := mm.count + 1;
      vm := next;
    }

    /** fork's copy of the parent's list: the child gets the same areas in the same order in a page of its own, and
        nothing that was there changes. */
    method CloneAreas(parent: Option<Ref>, mm: Mm, raw: seq<Node>, ghost chain: seq<Ref>)
      requires Valid(pages) && |raw| == SLOTS && mm.mmap == None && mm.count == 0
      requires IsChain(pages, parent, chain) && |chain| <= SLOTS
      modifies `pages, mm
      ensures |old(pages)| <= |pages| && pages[..|old(pages)|] == old(pages)
      ensures mm.count == |chain| && IsChain(pages, mm.mmap, Run(|old(pages)|, |chain|))
      ensures SameAreas(pages, Run(|old(pages)|, |chain|), old(pages), chain)
    {
      ghost var was, n := pages, 0;
      var parentVm := parent;
      while parentVm.Some?
        invariant n <= |chain| && parentVm == Link(chain, n) && Copied(was, pages, chain, n)
        invariant mm.count == n && mm.mmap == Link(Run(|was|, n), 0)
        decreases |chain| - n
      {
        ghost var now := pages;
        assert Linked(was, chain, n);
        assert InPages(now, parentVm.value) && At(now, parentVm.value) == At(was, chain[n]);
        var area := At(pages, parentVm.value).area;
        var vm := MallocVma(mm, raw, |was|);
        pages := Fill(pages, vm, Node(area, None));
        CopyOne(was, now, chain, n, raw);
        parentVm := At(pages, parentVm.value).next;
        n := n + 1;
      }
      assert chain[..n] == chain;
    }
  }
}
