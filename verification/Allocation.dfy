/** Runs of allocations: get_page calls while the list of pages is in use, then page_alloc and kmalloc calls in any
    order. */
module Allocation {
  import opened Addressing
  import opened PageTables
  import opened PageView
  import opened KernelPaging
  import opened Boot

  datatype Request = OnePage | Kmalloc(sz: nat)

  function Size(r: Request): nat {
    match r
    case OnePage => 1
    case Kmalloc(sz) => PagesFor(sz)
  }

  /** The first frame of the `k`-th block, when every request takes its pages at the cursor. */
  function BlockStart(first: nat, rs: seq<Request>, k: nat): nat
    requires k <= |rs|
  {
    if k == 0 then first else BlockStart(first, rs, k - 1) + Size(rs[k - 1])
  }

  lemma {:induction false} BlocksInOrder(first: nat, rs: seq<Request>, j: nat, k: nat)
    requires j < k <= |rs|
    ensures first <= BlockStart(first, rs, j) && BlockStart(first, rs, j) + Size(rs[j]) <= BlockStart(first, rs, k)
    decreases k
  {
    if j + 1 < k {
      BlocksInOrder(first, rs, j, k - 1);
    } else if j > 0 {
      BlocksInOrder(first, rs, j - 1, j);
    }
  }

  /** Frames `a` up to `b` have been zeroed, all others are as they were. */
  ghost predicate Cleared(m: Memory, m': Memory, a: nat, b: nat) {
    |m'| == |m| && forall f | 0 <= f < |m| :: m'[f] == if a <= f < b then ZeroTable() else m[f]
  }

  lemma ClearedOn(m0: Memory, m1: Memory, m2: Memory, a: nat, b: nat, c: nat)
    requires a <= b <= c && Cleared(m0, m1, a, b) && Cleared(m1, m2, b, c)
    ensures Cleared(m0, m2, a, c)
  {
  }

  /** `n` get_page calls: consecutive pages of the list, of which only the marks change. */
  method GetPages(k: Kernel, n: nat, ghost end: nat) returns (heads: seq<nat>)
    requires ValidMemory(k.mem) && k.pdesc % PAGE_SIZE == 0 && k.pdesc / PAGE_SIZE + n < end
    requires FreeList(k.mem, k.pdesc / PAGE_SIZE, end)
    modifies k`mem, k`pdesc
    ensures ValidMemory(k.mem) && |k.mem| == old(|k.mem|) && k.pdesc == old(k.pdesc) + n * PAGE_SIZE
    ensures |heads| == n && forall i | 0 <= i < n :: heads[i] == old(k.pdesc) + i * PAGE_SIZE
    ensures forall f: nat, i: nat :: Read(k.mem, f, i)
              == if old(k.pdesc) / PAGE_SIZE <= f < old(k.pdesc) / PAGE_SIZE + n && i == 0
                 then Marked(old(Read(k.mem, f, i))) else old(Read(k.mem, f, i))
  {
    heads := [];
    ghost var first := k.pdesc / PAGE_SIZE;
    var c := 0;
    while c < n
      invariant 0 <= c <= n && |heads| == c && ValidMemory(k.mem) && |k.mem| == old(|k.mem|)
      invariant k.pdesc == (first + c) * PAGE_SIZE && FreeList(k.mem, first + c, end)
      invariant forall i | 0 <= i < c :: heads[i] == old(k.pdesc) + i * PAGE_SIZE
      invariant forall f: nat, i: nat :: Read(k.mem, f, i)
                  == if first <= f < first + c && i == 0 then Marked(old(Read(k.mem, f, i))) else old(Read(k.mem, f, i))
    {
      var head := GetPage(k, end);
      heads := heads + [head];
      c := c + 1;
    }
  }

  ghost predicate HeadAt(heads: seq<nat>, first: nat, rs: seq<Request>, j: nat) {
    j < |heads| && j <= |rs| && heads[j] == Ptr(BlockStart(first, rs, j))
  }

  /** page_alloc or kmalloc: the block is taken at the cursor and zeroed. */
  method Serve(k: Kernel, r: Request) returns (head: nat)
    requires k.ValidAllocator() && (r.Kmalloc? ==> 0 < r.sz) && k.Limit() + Size(r) <= |k.mem|
    modifies k`mem, k`pdesc, k`physPdesc, k`virtToPhyFlag
    ensures k.ValidAllocator() && k.virtToPhyFlag
    ensures head == Ptr(old(k.Limit())) && k.Limit() == old(k.Limit()) + Size(r)
    ensures Cleared(old(k.mem), k.mem, old(k.Limit()), k.Limit())
  {
    match r
    case OnePage => head := k.PageAlloc();
    case Kmalloc(sz) => head := k.Kmalloc(sz);
  }

  /** Any sequence of requests: one block behind the other from the cursor on, all of them zeroed, nothing else
      touched. */
  method ServeAll(k: Kernel, rs: seq<Request>) returns (heads: seq<nat>)
    requires k.ValidAllocator() && BlockStart(k.Limit(), rs, |rs|) <= |k.mem|
    requires forall r | r in rs :: r.Kmalloc? ==> 0 < r.sz
    modifies k`mem, k`pdesc, k`physPdesc, k`virtToPhyFlag
    ensures k.ValidAllocator() && (rs != [] ==> k.virtToPhyFlag) && k.Limit() == BlockStart(old(k.Limit()), rs, |rs|)
    ensures |heads| == |rs| && forall i | 0 <= i < |rs| :: HeadAt(heads, old(k.Limit()), rs, i)
    ensures Cleared(old(k.mem), k.mem, old(k.Limit()), k.Limit())
  {
    heads := [];
    ghost var first := k.Limit();
    var i := 0;
    while i < |rs|
      invariant 0 <= i <= |rs| && |heads| == i && k.ValidAllocator() && (i > 0 ==> k.virtToPhyFlag)
      invariant first <= k.Limit() == BlockStart(first, rs, i)
      invariant forall j | 0 <= j < i :: HeadAt(heads, first, rs, j)
      invariant Cleared(old(k.mem), k.mem, first, k.Limit())
    {
      ghost var m, limit := k.mem, k.Limit();
      BlocksInOrder(first, rs, i, |rs|);
      var head := Serve(k, rs[i]);
      ClearedOn(old(k.mem), m, k.mem, first, limit, k.Limit());
      ghost var before := heads;
      heads := heads + [head];
      assert forall j | 0 <= j < i :: HeadAt(before, first, rs, j) ==> HeadAt(heads, first, rs, j);
      i := i + 1;
    }
  }

  /** The whole life of the allocator: `n` pages off the list, then any requests. The first request leaves the list and
      goes on at its cursor, so the blocks lie behind the listed pages and one behind the other: no page is handed out
      twice. */
  method AllocateAll(k: Kernel, n: nat, rs: seq<Request>, ghost end: nat) returns (pages: seq<nat>, heads: seq<nat>)
    requires k.ValidAllocator() && !k.virtToPhyFlag && k.Limit() + n < end && FreeList(k.mem, k.Limit(), end)
    requires BlockStart(k.Limit() + n, rs, |rs|) <= |k.mem| && forall r | r in rs :: r.Kmalloc? ==> 0 < r.sz
    modifies k`mem, k`pdesc, k`physPdesc, k`virtToPhyFlag
    ensures k.ValidAllocator() && |pages| == n && |heads| == |rs|
    ensures forall i | 0 <= i < n :: pages[i] == (old(k.Limit()) + i) * PAGE_SIZE
    ensures forall i | 0 <= i < |rs| :: heads[i] == Ptr(BlockStart(old(k.Limit()) + n, rs, i))
    ensures forall i, j | 0 <= i < n && 0 <= j < |rs| :: pages[i] / PAGE_SIZE < FrameAt(heads[j])
    ensures forall i, j | 0 <= i < j < |rs| :: FrameAt(heads[i]) + Size(rs[i]) <= FrameAt(heads[j])
    ensures forall f: nat, i: nat :: Read(k.mem, f, i)
              == if old(k.Limit()) + n <= f < BlockStart(old(k.Limit()) + n, rs, |rs|) then 0
                 else if old(k.Limit()) <= f < old(k.Limit()) + n && i == 0 then Marked(old(Read(k.mem, f, i)))
                 else old(Read(k.mem, f, i))
  {
    ghost var first := k.Limit() + n;
    pages := GetPages(k, n, end);
    assert k.Limit() == first;
    heads := ServeAll(k, rs);
    assert forall i | 0 <= i < |rs| :: HeadAt(heads, first, rs, i) ==> heads[i] == Ptr(BlockStart(first, rs, i));
    forall i, j | 0 <= i < n && 0 <= j < |rs| ensures pages[i] / PAGE_SIZE < FrameAt(heads[j]) {
      BlocksInOrder(first, rs, j, |rs|);
    }
    forall i, j | 0 <= i < j < |rs| ensures FrameAt(heads[i]) + Size(rs[i]) <= FrameAt(heads[j]) {
      BlocksInOrder(first, rs, i, j);
    }
  }
}
