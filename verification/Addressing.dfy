/** Constants and address arithmetic shared by the paging code.

    Addresses are unsigned 64-bit values, modelled as naturals. */
module Addressing {
  const PAGE_SIZE: nat := 0x1000
  const TABLE_SIZE: nat := 512
  const VIRT_BASE: nat := 0xFFFF_FFFF_8000_0000
  const KERN_PERM_BITS: nat := 0x3
  const USR_PERM_BITS: nat := 0x7
  const COW_PERM_BITS: nat := 0x5
  const START_PADDR_FOR_USRS: nat := 0x500_0000
  const END_PADDR_FOR_USRS: nat := 0x600_0000
  const FIRST_USER_FRAME: nat := 0x5000
  const START_VADDR_FOR_USRS: nat := 0x8_eee7_0000
  const PHYSBASE: nat := 0x20_0000

  /** The number of 4-KByte pages in a 48-bit address space. */
  const PAGES: nat := 0x10_0000_0000

  /** ROUNDDOWN(a, PAGE_SIZE) */
  function RoundDown(a: nat): (r: nat)
    ensures r <= a < r + PAGE_SIZE && r % PAGE_SIZE == 0
  {
    a - a % PAGE_SIZE
  }

  /** ROUNDUP(a, PAGE_SIZE) */
  function RoundUp(a: nat): (r: nat)
    ensures a <= r < a + PAGE_SIZE && r % PAGE_SIZE == 0
  {
    RoundDown(a + PAGE_SIZE - 1)
  }

  function PtOffset(va: nat): nat { va / PAGE_SIZE % 512 }
  function PdOffset(va: nat): nat { va / PAGE_SIZE / 512 % 512 }
  function PdpOffset(va: nat): nat { va / PAGE_SIZE / 512 / 512 % 512 }
  function Pml4Offset(va: nat): nat { va / PAGE_SIZE / 512 / 512 / 512 % 512 }

  /** The indices that translate `va`, outermost table first. */
  function PathOf(va: nat): (p: seq<nat>)
    ensures |p| == 4 && forall k | 0 <= k < 4 :: p[k] < 512
  {
    [Pml4Offset(va), PdpOffset(va), PdOffset(va), PtOffset(va)]
  }

  /** The number, in the 48-bit address space, of the page that holds `va`. */
  function PageOf(va: nat): (n: nat)
    ensures n < PAGES
  {
    (va / PAGE_SIZE) % PAGES
  }

  /** The first 48-bit address of page `n`. */
  function AddressOf(n: nat): nat { n * PAGE_SIZE }

  /** The four offsets are the base-512 digits of the page number. */
  lemma PathDigits(va: nat)
    ensures PageOf(va) / 512 / 512 / 512 == PathOf(va)[0]
    ensures PageOf(va) / 512 / 512 % 512 == PathOf(va)[1]
    ensures PageOf(va) / 512 % 512 == PathOf(va)[2]
    ensures PageOf(va) % 512 == PathOf(va)[3]
  {
    var n := va / PAGE_SIZE;
    LowestDigit(n, 0x800_0000);
    LowestDigit(n / 512, 0x4_0000);
    LowestDigit(n / 512 / 512, 512);
  }

  /** Splitting off the lowest base-512 digit of a number taken modulo `512 * m`. */
  lemma LowestDigit(n: nat, m: nat)
    requires m > 0
    ensures n % (512 * m) / 512 == n / 512 % m
    ensures n % (512 * m) % 512 == n % 512
  {
    var a, r := n / 512, n % 512;
    var b, c := a / m, a % m;
    assert n == 512 * (m * b + c) + r;
    assert 512 * (m * b) == (512 * m) * b;
    assert c + 1 <= m;
    Euclid(n, 512 * m, b, 512 * c + r);
    Euclid(512 * c + r, 512, c, r);
  }

  /** Quotient and remainder are unique. */
  lemma Euclid(n: nat, d: nat, q: nat, r: nat)
    requires n == d * q + r && r < d
    ensures n / d == q && n % d == r
  {
    var q', r' := n / d, n % d;
    assert n == d * q' + r' && 0 <= r' < d;
    assert q' + 1 <= q ==> d * (q' + 1) <= d * q;
    assert q + 1 <= q' ==> d * (q + 1) <= d * q';
  }

  /** Two addresses share their first `k` offsets exactly when their page numbers agree above level `k`. */
  lemma SharedPrefix(va: nat, vb: nat)
    ensures PathOf(va)[..1] == PathOf(vb)[..1] <==> PageOf(va) / 512 / 512 / 512 == PageOf(vb) / 512 / 512 / 512
    ensures PathOf(va)[..2] == PathOf(vb)[..2] <==> PageOf(va) / 512 / 512 == PageOf(vb) / 512 / 512
    ensures PathOf(va)[..3] == PathOf(vb)[..3] <==> PageOf(va) / 512 == PageOf(vb) / 512
    ensures PathOf(va) == PathOf(vb) <==> PageOf(va) == PageOf(vb)
  {
    PathDigits(va);
    PathDigits(vb);
    var p, q := PathOf(va), PathOf(vb);
    assert p[..1] == q[..1] <==> p[0] == q[0];
    assert p[..2] == q[..2] <==> p[..1] == q[..1] && p[1] == q[1];
    assert p[..3] == q[..3] <==> p[..2] == q[..2] && p[2] == q[2];
    assert p == q <==> p[..3] == q[..3] && p[3] == q[3];
    QuotientAndDigit(PageOf(va) / 512 / 512, PageOf(vb) / 512 / 512);
    QuotientAndDigit(PageOf(va) / 512, PageOf(vb) / 512);
    QuotientAndDigit(PageOf(va), PageOf(vb));
  }

  lemma QuotientAndDigit(m: nat, n: nat)
    ensures m == n <==> m / 512 == n / 512 && m % 512 == n % 512
  {
  }
}
