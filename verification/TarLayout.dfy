/** Laying members out as an archive, which the readers of `Tarfs` undo. */
module TarLayout {
  import opened Numerals
  import opened Tarfs

  function Zeros(n: nat): (s: string)
    ensures |s| == n && forall k | 0 <= k < n :: s[k] == NUL
  {
    seq(n, k => NUL)
  }

  /** `n` in `w` octal digits. */
  function Octal(n: nat, w: nat): (s: string)
    ensures |s| == w && IsOctal(s)
  {
    if w == 0 then "" else Octal(n / 8, w - 1) + [DigitChar(n % 8)]
  }

  /** What a header can express: a name that leaves room for its terminator, and a size of eleven octal digits. */
  predicate Storable(m: Member) {
    0 < |m.name| < 100 && NUL !in m.name && |m.content| < Power(8, 11)
  }

  function NameField(m: Member): (s: string)
    requires Storable(m)
    ensures |s| == SIZE_FIELD
  {
    m.name + Zeros(SIZE_FIELD - |m.name|)
  }

  function SizeField(m: Member): (s: string)
    ensures |s| == BLOCK - SIZE_FIELD
  {
    Octal(|m.content|, 11) + Zeros(BLOCK - SIZE_FIELD - 11)
  }

  function Body(m: Member): (s: string)
    ensures |s| == Padded(|m.content|)
  {
    m.content + Zeros(Padded(|m.content|) - |m.content|)
  }

  function Stored(m: Member): (s: string)
    requires Storable(m)
    ensures |s| == BLOCK + Padded(|m.content|)
  {
    NameField(m) + (SizeField(m) + Body(m))
  }

  /** The first `k` members, one behind the other. */
  function Front(ms: seq<Member>, k: nat): (s: string)
    requires k <= |ms| && forall i | 0 <= i < |ms| :: Storable(ms[i])
    ensures |s| == Offset(ms, k)
  {
    if k == 0 then "" else Front(ms, k - 1) + Stored(ms[k - 1])
  }

  function Layout(ms: seq<Member>): string
    requires forall i | 0 <= i < |ms| :: Storable(ms[i])
  {
    Front(ms, |ms|) + Zeros(2 * BLOCK)
  }

  lemma {:induction false} OctalValue(n: nat, w: nat)
    requires n < Power(8, w)
    ensures Value(Octal(n, w), 8) == n
  {
    if w > 0 {
      OctalValue(n / 8, w - 1);
      assert Octal(n, w)[..w - 1] == Octal(n / 8, w - 1);
    }
  }

  lemma HoldsParts(mem: string, at: nat, a: string, b: string)
    requires Holds(mem, at, a + b)
    ensures Holds(mem, at, a) && Holds(mem, at + |a|, b)
  {
    var ab := mem[at..at + |a| + |b|];
    assert mem[at..at + |a|] == ab[..|a|] == a;
    assert mem[at + |a|..at + |a| + |b|] == ab[|a|..] == b;
  }

  lemma HoldsInFront(mem: string, more: string, at: nat, text: string)
    requires Holds(mem, at, text)
    ensures Holds(mem + more, at, text)
  {
    assert (mem + more)[at..at + |text|] == mem[at..at + |text|];
  }

  lemma HeldByte(mem: string, at: nat, text: string, k: nat)
    requires Holds(mem, at, text) && k < |text|
    ensures mem[at + k] == text[k]
  {
    assert mem[at + k] == mem[at..at + |text|][k];
  }

  lemma SizeHeld(mem: string, at: nat, m: Member)
    requires Storable(m) && Holds(mem, at, SizeField(m))
    ensures IsOctal(Field(mem, at)) && Value(Field(mem, at), 8) == |m.content|
  {
    var digits := Octal(|m.content|, 11);
    HoldsParts(mem, at, digits, Zeros(BLOCK - SIZE_FIELD - 11));
    HeldByte(mem, at, SizeField(m), 11);
    FieldOf(mem, at, digits);
    OctalValue(|m.content|, 11);
  }

  lemma NameHeld(mem: string, at: nat, m: Member)
    requires Storable(m) && Holds(mem, at, NameField(m))
    ensures Holds(mem, at, m.name) && at + |m.name| < |mem| && mem[at + |m.name|] == NUL
  {
    HoldsParts(mem, at, m.name, Zeros(SIZE_FIELD - |m.name|));
    HeldByte(mem, at, NameField(m), |m.name|);
  }

  lemma MemberHeld(mem: string, at: nat, m: Member)
    requires Storable(m) && Holds(mem, at, Stored(m))
    ensures IsMember(mem, at, m)
  {
    HoldsParts(mem, at, NameField(m), SizeField(m) + Body(m));
    HoldsParts(mem, at + SIZE_FIELD, SizeField(m), Body(m));
    HoldsParts(mem, at + BLOCK, m.content, Zeros(|Body(m)| - |m.content|));
    NameHeld(mem, at, m);
    SizeHeld(mem, at + SIZE_FIELD, m);
  }

  lemma {:induction false} FrontHolds(ms: seq<Member>, j: nat, k: nat)
    requires k < j <= |ms| && forall i | 0 <= i < |ms| :: Storable(ms[i])
    ensures Holds(Front(ms, j), Offset(ms, k), Stored(ms[k]))
    decreases j
  {
    if k + 1 < j {
      FrontHolds(ms, j - 1, k);
      HoldsInFront(Front(ms, j - 1), Stored(ms[j - 1]), Offset(ms, k), Stored(ms[k]));
    }
  }

  /** Every list of members that fits has its archive, from which the walk of `Tarfs.InitTarfs` recovers it. */
  lemma LaidOut(ms: seq<Member>)
    requires forall i | 0 <= i < |ms| :: Storable(ms[i])
    ensures IsArchive(Layout(ms), ms)
    ensures Offset(ms, |ms|) + 2 * BLOCK < 0x8000_0000 ==> Terminated(Layout(ms))
  {
    var mem := Layout(ms);
    forall k | 0 <= k < |ms| ensures IsMember(mem, Offset(ms, k), ms[k]) {
      FrontHolds(ms, |ms|, k);
      HoldsInFront(Front(ms, |ms|), Zeros(2 * BLOCK), Offset(ms, k), Stored(ms[k]));
      MemberHeld(mem, Offset(ms, k), ms[k]);
    }
  }
}
