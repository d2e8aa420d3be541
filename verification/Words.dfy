/** Machine words as bits, least significant first: the shifts, masks and ors of the paging code as arithmetic. */
module Words {
  import opened Addressing
  import opened PageTables

  type Bits = seq<bool>

  function Val(b: Bits): nat {
    if b == [] then 0 else (if b[0] then 1 else 0) + 2 * Val(b[1..])
  }

  function Pow2(n: nat): (p: nat)
    ensures p > 0
  {
    if n == 0 then 1 else 2 * Pow2(n - 1)
  }

  /** `b >> n` */
  function Shift(b: Bits, n: nat): Bits
    requires n <= |b|
  {
    b[n..]
  }

  /** `b & (2^n - 1)` */
  function Mask(b: Bits, n: nat): Bits
    requires n <= |b|
  {
    b[..n]
  }

  /** `a | b` */
  function Or(a: Bits, b: Bits): (c: Bits)
    requires |a| == |b|
    ensures |c| == |a| && forall i | 0 <= i < |a| :: c[i] == (a[i] || b[i])
  {
    seq(|a|, i requires 0 <= i < |a| => a[i] || b[i])
  }

  lemma Halves(x: nat, p: nat)
    requires p > 0
    ensures x / 2 / p == x / (2 * p) && x % (2 * p) == x % 2 + 2 * (x / 2 % p)
  {
    var q, r := x / 2 / p, x / 2 % p;
    assert x == 2 * (p * q + r) + x % 2;
    assert 2 * (p * q) == (2 * p) * q;
    Euclid(x, 2 * p, q, 2 * r + x % 2);
  }

  lemma {:induction false} ShiftDivides(b: Bits, n: nat)
    requires n <= |b|
    ensures Val(Shift(b, n)) == Val(b) / Pow2(n)
    decreases n
  {
    if n > 0 {
      ShiftDivides(b[1..], n - 1);
      assert b[1..][n - 1..] == b[n..];
      Halves(Val(b), Pow2(n - 1));
    }
  }

  lemma {:induction false} MaskKeepsRemainder(b: Bits, n: nat)
    requires n <= |b|
    ensures Val(Mask(b, n)) == Val(b) % Pow2(n)
    decreases n
  {
    if n > 0 {
      MaskKeepsRemainder(b[1..], n - 1);
      assert b[..n][1..] == b[1..][..n - 1];
      Halves(Val(b), Pow2(n - 1));
    }
  }

  /** Bits that do not meet add up. */
  lemma {:induction false} OrAdds(a: Bits, b: Bits)
    requires |a| == |b| && forall i | 0 <= i < |a| :: !(a[i] && b[i])
    ensures Val(Or(a, b)) == Val(a) + Val(b)
  {
    if a != [] {
      OrAdds(a[1..], b[1..]);
      assert Or(a, b)[1..] == Or(a[1..], b[1..]);
    }
  }

  /** The four offset functions, as they shift and mask a 64-bit address. */
  lemma OffsetBits(v: Bits)
    requires |v| == 64
    ensures Val(Mask(Shift(v, 12), 9)) == PtOffset(Val(v))
    ensures Val(Mask(Shift(v, 21), 9)) == PdOffset(Val(v))
    ensures Val(Mask(Shift(v, 30), 9)) == PdpOffset(Val(v))
    ensures Val(Mask(Shift(v, 39), 9)) == Pml4Offset(Val(v))
  {
    assert Pow2(12) == PAGE_SIZE && Pow2(9) == 512;
    var v1, v2, v3, v4 := Shift(v, 12), Shift(v, 21), Shift(v, 30), Shift(v, 39);
    assert Shift(v1, 9) == v2 && Shift(v2, 9) == v3 && Shift(v3, 9) == v4;
    ShiftDivides(v, 12);
    ShiftDivides(v1, 9);
    ShiftDivides(v2, 9);
    ShiftDivides(v3, 9);
    MaskKeepsRemainder(v1, 9);
    MaskKeepsRemainder(v2, 9);
    MaskKeepsRemainder(v3, 9);
    MaskKeepsRemainder(v4, 9);
  }

  /** Or-ing permissions into the address of a frame makes the frame's entry. */
  lemma PermissionBits(word: Bits, perm: Bits)
    requires |word| == |perm| == 64
    requires (forall i | 0 <= i < 12 :: !word[i]) && (forall i | 12 <= i < 64 :: !perm[i])
    ensures Val(Or(word, perm)) == Entry(Val(word) / PAGE_SIZE, Val(perm))
  {
    OrAdds(word, perm);
    assert Pow2(12) == PAGE_SIZE;
    MaskKeepsRemainder(word, 12);
    NoBits(Mask(word, 12));
  }

  lemma {:induction false} NoBits(b: Bits)
    requires forall i | 0 <= i < |b| :: !b[i]
    ensures Val(b) == 0
  {
    if b != [] { NoBits(b[1..]); }
  }
}
