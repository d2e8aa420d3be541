/** The heap that the malloc system call hands out piece by piece: one page, never given back. */
module Heap {
  import opened Options
  import opened Addressing

  const WORD: nat := 0x1_0000_0000_0000_0000

  /** 64-bit words, and their sum and difference, which wrap round. */
  type Word = n: nat | n < WORD

  function Add(a: Word, b: Word): Word { if a + b < WORD then a + b else a + b - WORD }

  function Sub(a: Word, b: Word): Word { if b <= a then a - b else a + WORD - b }

  /** How far the heap's end has moved after the first `k` requests. */
  function Used(sizes: seq<Word>, k: nat): Word
    requires k <= |sizes|
  {
    if k == 0 then 0 else Add(Used(sizes, k - 1), sizes[k - 1])
  }

  /** How much the first `k` requests have asked for. */
  function Total(sizes: seq<Word>, k: nat): nat
    requires k <= |sizes|
  {
    if k == 0 then 0 else Total(sizes, k - 1) + sizes[k - 1]
  }

  /** What request `k` comes to: the offset of its piece from the start of the heap, or a refusal. */
  function Answer(sizes: seq<Word>, k: nat): Option<Word>
    requires k < |sizes|
  {
    if Used(sizes, k + 1) > PAGE_SIZE then None else Some(Used(sizes, k))
  }

  class HeapVma {
    var vmStart: Word
    var vmEnd: Word

    /** The requests so far. */
    ghost var sizes: seq<Word>

    ghost predicate Valid()
      reads this
    {
      vmEnd == Add(vmStart, Used(sizes, |sizes|))
    }

    constructor (start: Word)
      ensures Valid() && vmStart == start && sizes == []
    {
      vmStart, vmEnd, sizes := start, start, [];
    }

    /** malloc: the end moves even when the request is refused; a null pointer is 0. */
    method Malloc(size: Word) returns (p: Word)
      requires Valid()
      modifies this
      ensures Valid() && vmStart == old(vmStart) && sizes == old(sizes) + [size]
      ensures p == match Answer(sizes, |sizes| - 1) case None => 0 case Some(at) => Add(vmStart, at)
    {
      var start := vmEnd;
      SameUsed(sizes, sizes + [size], |sizes|);
      sizes := sizes + [size];
      vmEnd := Add(vmEnd, size);
      if Sub(vmEnd, vmStart) > PAGE_SIZE {
        return 0;
      }
      return start;
    }
  }

  lemma {:induction false} SameUsed(sizes: seq<Word>, sizes': seq<Word>, k: nat)
    requires k <= |sizes| && sizes <= sizes'
    ensures Used(sizes, k) == Used(sizes', k)
  {
    if k > 0 { SameUsed(sizes, sizes', k - 1); }
  }

  lemma {:induction false} NoWrap(sizes: seq<Word>, k: nat)
    requires k <= |sizes| && Total(sizes, k) < WORD
    ensures Used(sizes, k) == Total(sizes, k)
  {
    if k > 0 { NoWrap(sizes, k - 1); }
  }

  lemma {:induction false} TotalGrows(sizes: seq<Word>, j: nat, k: nat)
    requires j <= k <= |sizes|
    ensures Total(sizes, j) <= Total(sizes, k)
    decreases k
  {
    if j < k { TotalGrows(sizes, j, k - 1); }
  }

  /** Short of 2^64 bytes, a request is granted exactly when everything asked for so far, refused requests included,
      fits in the page. */
  lemma Granted(sizes: seq<Word>, k: nat)
    requires k < |sizes| && Total(sizes, k + 1) < WORD
    ensures Answer(sizes, k) == if Total(sizes, k + 1) <= PAGE_SIZE then Some(Total(sizes, k)) else None
  {
    NoWrap(sizes, k);
    NoWrap(sizes, k + 1);
  }

  /** So granted pieces lie one behind the other in the page, and after a refusal nothing is granted any more. */
  lemma Pieces(sizes: seq<Word>, j: nat, k: nat)
    requires j < k < |sizes| && Total(sizes, k + 1) < WORD
    ensures Answer(sizes, k).Some? ==>
              && Answer(sizes, j).Some? && Answer(sizes, j).value + sizes[j] <= Answer(sizes, k).value
              && Answer(sizes, k).value + sizes[k] <= PAGE_SIZE
    ensures Answer(sizes, k).Some? && k == j + 1 ==> Answer(sizes, k).value == Answer(sizes, j).value + sizes[j]
  {
    TotalGrows(sizes, j + 1, k);
    Granted(sizes, j);
    Granted(sizes, k);
  }

  /** The first piece begins at the start of the heap, and one of a whole page is granted. */
  lemma FirstPiece(sizes: seq<Word>)
    requires sizes != []
    ensures Answer(sizes, 0) == if sizes[0] <= PAGE_SIZE then Some(0) else None
  {
    assert Used(sizes, 1) == Add(Used(sizes, 0), sizes[0]);
  }

  /** Beyond that, a granted piece lies in the page exactly when the heap's end did not wrap round. */
  lemma GrantedInPage(sizes: seq<Word>, k: nat)
    requires k < |sizes| && Answer(sizes, k).Some?
    ensures Answer(sizes, k).value + sizes[k] <= PAGE_SIZE <==> Used(sizes, k) + sizes[k] < WORD
  {
  }
}
