/** Numbers as text: itoa, stoi, power and oct2dec. */
module Numerals {
  const INT_MIN: int := -0x8000_0000
  const INT_MAX: int := 0x7FFF_FFFF

  // ---- C's division truncates toward zero

  function CDiv(a: int, b: int): int
    requires b > 0
  {
    if a < 0 then -((-a) / b) else a / b
  }

  function CMod(a: int, b: int): int
    requires b > 0
  {
    if a < 0 then -((-a) % b) else a % b
  }

  function Abs(a: int): nat { if a < 0 then -a else a }

  // ---- Numerals

  function DigitChar(d: nat): char
    requires d < 36
  {
    if d < 10 then '0' + d as char else 'a' + (d - 10) as char
  }

  /** The digits of `n`, most significant first, without leading zeros. */
  function Numeral(n: nat, base: nat): (s: string)
    requires 2 <= base <= 36
    ensures s != ""
  {
    if n < base then [DigitChar(n)]
    else
      QuotientFacts(n, base);
      Shrinks(n, base);
      Numeral(n / base, base) + [DigitChar(n % base)]
  }

  function DigitOf(c: char): nat
    requires '0' <= c <= '9' || 'a' <= c <= 'z'
  {
    if c <= '9' then c as nat - '0' as nat else c as nat - 'a' as nat + 10
  }

  predicate IsNumeral(s: string) { forall k | 0 <= k < |s| :: '0' <= s[k] <= '9' || 'a' <= s[k] <= 'z' }

  /** The number a numeral stands for in base `b`. */
  function Value(s: string, b: nat): nat
    requires IsNumeral(s)
  {
    if s == "" then 0 else Value(s[..|s| - 1], b) * b + DigitOf(s[|s| - 1])
  }

  /** A numeral stands for its number, and begins with 0 for 0 only. */
  lemma {:induction false} NumeralDenotes(n: nat, base: nat)
    requires 2 <= base <= 36
    ensures IsNumeral(Numeral(n, base)) && Value(Numeral(n, base), base) == n
    ensures Numeral(n, base)[0] == '0' <==> n == 0
  {
    var s := Numeral(n, base);
    if n >= base {
      Shrinks(n, base);
      NumeralDenotes(n / base, base);
      assert s[..|s| - 1] == Numeral(n / base, base);
      Recombine(n, base);
    } else {
      assert s[..|s| - 1] == "";
    }
  }

  lemma Recombine(n: nat, base: nat)
    requires 2 <= base <= n
    ensures n / base * base + n % base == n && n / base > 0
  {
    QuotientFacts(n, base);
  }

  /** The digits of `n`, least significant first. */
  function Digits(n: nat, base: nat): (s: string)
    requires 2 <= base <= 36
    ensures s != ""
  {
    [DigitChar(n % base)] + if n < base then [] else Digits(n / base, base)
  }

  function Reversed(s: string): (r: string)
    ensures |r| == |s| && forall k | 0 <= k < |s| :: r[k] == s[|s| - 1 - k]
  {
    if s == "" then "" else Reversed(s[1..]) + [s[0]]
  }

  lemma Shrinks(n: nat, base: nat)
    requires 2 <= base && 0 < n
    ensures n / base < n
  {
  }

  lemma ReversedCons(c: char, s: string)
    ensures Reversed([c] + s) == Reversed(s) + [c]
  {
    assert ([c] + s)[1..] == s;
  }

  lemma {:induction false} DigitsReversed(n: nat, base: nat)
    requires 2 <= base <= 36
    ensures Reversed(Digits(n, base)) == Numeral(n, base)
  {
    var d := DigitChar(n % base);
    if n < base {
      assert n % base == n;
      ReversedCons(d, "");
      assert Reversed("") + [d] == [d];
    } else {
      Shrinks(n, base);
      DigitsReversed(n / base, base);
      ReversedCons(d, Digits(n / base, base));
    }
  }

  /** What itoa writes. */
  function Text(value: int, base: nat): string
    requires 2 <= base <= 36
  {
    (if value < 0 && base == 10 then "-" else "") + Numeral(Abs(value), base)
  }

  /** Character `k` of the table "zyx..10123..xyz" that itoa indexes with 35 plus a signed remainder. */
  function TableChar(k: nat): char
    requires k < 71
  {
    if k < 26 then 'z' - k as char
    else if k < 36 then '9' - (k - 26) as char
    else if k < 45 then '1' + (k - 36) as char
    else 'a' + (k - 45) as char
  }

  const DIGITS: string := "0123456789abcdefghijklmnopqrstuvwxyz"

  /** The digits in order, as literals. */
  lemma DigitTable(d: nat)
    requires d < 36
    ensures DigitChar(d) == DIGITS[d]
  {
  }

  lemma TableDigit(m: int)
    requires -36 < m < 36
    ensures TableChar(35 + m) == DigitChar(Abs(m))
  {
  }

  lemma QuotientFacts(n: nat, base: nat)
    requires 2 <= base
    ensures n / base <= n && (n / base == 0 <==> n < base) && n % base < base
  {
    if 0 < n { Shrinks(n, base); }
    if n < base { assert n / base == 0; }
  }

  /** One round of the conversion loop, seen from the digits. */
  lemma DigitStep(v: int, base: nat)
    requires 2 <= base <= 36
    ensures Abs(CMod(v, base)) < base && Digits(Abs(v), base)[0] == TableChar(35 + CMod(v, base))
    ensures Abs(CDiv(v, base)) <= Abs(v) && (v != 0 ==> Abs(CDiv(v, base)) < Abs(v))
    ensures CDiv(v, base) == 0 ==> |Digits(Abs(v), base)| == 1
    ensures CDiv(v, base) != 0 ==> Digits(Abs(v), base)[1..] == Digits(Abs(CDiv(v, base)), base)
  {
    var n := Abs(v);
    QuotientFacts(n, base);
    if n > 0 { Shrinks(n, base); }
    assert Abs(CMod(v, base)) == n % base && Abs(CDiv(v, base)) == n / base;
    TableDigit(CMod(v, base));
  }

  /** itoa, for every 32-bit value and every base: the numeral, behind a sign for negative decimals, and a terminator.
      An unsupported base gives the empty string. */
  method Itoa(value: int, str: array<char>, base: int)
    requires INT_MIN <= value <= INT_MAX && 0 < str.Length
    requires 2 <= base <= 36 ==> |Text(value, base)| < str.Length
    modifies str
    ensures 2 <= base <= 36 ==>
              var n := |Text(value, base)|;
              str[..n] == Text(value, base) && str[n] == '\0' && str[n + 1..] == old(str[n + 1..])
    ensures !(2 <= base <= 36) ==> str[0] == '\0' && str[1..] == old(str[1..])
  {
    if base < 2 || base > 36 {
      str[0] := '\0';
      return;
    }
    var low := 0;
    if value < 0 && base == 10 {
      str[0] := '-';
      low := 1;
    }
    ghost var sign := str[..low];
    ghost var vs, ds := Spelling(value, base);
    assert Text(value, base) == sign + Reversed(ds);
    Spell(value, str, base, low, vs, ds);
    assert str[..low + |ds|] == str[..low] + str[low..low + |ds|];
  }

  /** The quotients of the conversion loop, and the digits it gives. */
  lemma Spelling(value: int, base: nat) returns (vs: seq<int>, ds: string)
    requires 2 <= base <= 36
    ensures vs != [] && vs[0] == value && Spells(vs, ds, base) && Reversed(ds) == Numeral(Abs(value), base)
  {
    vs := Quotients(value, base);
    ds := Digits(Abs(value), base);
    DigitsReversed(Abs(value), base);
  }

  /** The digits in order and a terminator, from `low` on. */
  method Spell(value: int, str: array<char>, base: nat, low: nat, ghost vs: seq<int>, ghost ds: string)
    requires 2 <= base <= 36 && vs != [] && vs[0] == value && Spells(vs, ds, base) && low + |ds| < str.Length
    modifies str
    ensures var n := low + |ds|;
            && str[..low] == old(str[..low]) && str[low..n] == Reversed(ds)
            && str[n] == '\0' && str[n + 1..] == old(str[n + 1..])
  {
    var ptr := WriteDigits(value, str, base, low, vs, ds);
    ghost var t := str[..];
    assert t[ptr..][1..] == t[ptr + 1..] == str[ptr + 1..] && old(str[ptr..])[1..] == old(str[ptr + 1..]);
    Finish(str, low, ptr);
  }

  /** The terminator is stored, and the digits are put in order. */
  method Finish(str: array<char>, low: nat, ptr: nat)
    requires low < ptr < str.Length
    modifies str
    ensures str[..low] == old(str[..low]) && str[low..ptr] == Reversed(old(str[low..ptr]))
    ensures str[ptr] == '\0' && str[ptr + 1..] == old(str[ptr + 1..])
  {
    str[ptr] := '\0';
    assert str[low..ptr] == old(str[low..ptr]) && str[..low] == old(str[..low]);
    ghost var tail := str[ptr..];
    assert tail[0] == '\0' && tail[1..] == old(str[ptr + 1..]);
    ReverseIn(str, low, ptr);
    assert str[ptr] == str[ptr..][0] && str[ptr + 1..] == str[ptr..][1..];
  }

  /** The conversion loop: digits from the least significant on. */
  method WriteDigits(v0: int, str: array<char>, base: nat, low: nat, ghost vs: seq<int>, ghost ds: string)
    returns (ptr: nat)
    requires 2 <= base <= 36 && vs != [] && vs[0] == v0 && Spells(vs, ds, base) && low + |ds| < str.Length
    modifies str
    ensures ptr == low + |ds| && str[low..ptr] == ds
    ensures str[..low] == old(str[..low]) && str[ptr..] == old(str[ptr..])
  {
    ghost var n := |vs|;
    var value := v0;
    ptr := low;
    while true
      invariant low <= ptr < low + n && value == vs[ptr - low]
      invariant forall k | 0 <= k < ptr - low :: str[low + k] == ds[k]
      invariant forall k | 0 <= k < low || ptr <= k < str.Length :: str[k] == old(str[k])
      decreases low + n - ptr
    {
      SpellsAt(vs, ds, base, ptr - low);
      str[ptr] := TableChar(35 + CMod(value, base));
      ptr := ptr + 1;
      value := CDiv(value, base);
      if value == 0 {
        break;
      }
    }
  }

  /** The value after `vs[k]`, or the end of the loop. */
  ghost predicate Divides(vs: seq<int>, base: nat, k: nat)
    requires 0 < base && k < |vs|
  {
    if k + 1 < |vs| then vs[k + 1] == CDiv(vs[k], base) != 0 else CDiv(vs[k], base) == 0
  }

  /** `vs` are the values whose last digits are `ds`. */
  ghost predicate Spells(vs: seq<int>, ds: string, base: nat)
    requires 0 < base
  {
    && |vs| == |ds|
    && (forall k | 0 <= k < |vs| :: -36 < CMod(vs[k], base) < 36)
    && (forall k | 0 <= k < |vs| :: ds[k] == TableChar(35 + CMod(vs[k], base)))
    && (forall k | 0 <= k < |vs| :: Divides(vs, base, k))
  }

  lemma SpellsAt(vs: seq<int>, ds: string, base: nat, k: nat)
    requires 0 < base && Spells(vs, ds, base) && k < |vs|
    ensures -36 < CMod(vs[k], base) < 36 && ds[k] == TableChar(35 + CMod(vs[k], base)) && Divides(vs, base, k)
  {
  }

  lemma SpellsMore(v: int, vs: seq<int>, d: char, ds: string, base: nat)
    requires 0 < base && vs != [] && Spells(vs, ds, base) && vs[0] == CDiv(v, base) != 0
    requires -36 < CMod(v, base) < 36 && d == TableChar(35 + CMod(v, base))
    ensures Spells([v] + vs, [d] + ds, base)
  {
    forall k | 0 <= k < |vs| + 1 ensures Divides([v] + vs, base, k) {
      if k > 0 { assert Divides(vs, base, k - 1); }
    }
  }

  /** The values that the conversion loop passes through. */
  lemma {:induction false} Quotients(v: int, base: nat) returns (vs: seq<int>)
    requires 2 <= base <= 36
    ensures vs != [] && vs[0] == v && Spells(vs, Digits(Abs(v), base), base)
    decreases Abs(v)
  {
    DigitStep(v, base);
    var ds, w := Digits(Abs(v), base), CDiv(v, base);
    if w == 0 {
      vs := [v];
    } else {
      var rest := Quotients(w, base);
      SpellsMore(v, rest, ds[0], ds[1..], base);
      vs := [v] + rest;
      assert ds == [ds[0]] + ds[1..];
    }
  }

  /** The inversion loop, on str[low..end]. */
  method ReverseIn(str: array<char>, low: nat, end: nat)
    requires low < end <= str.Length
    modifies str
    ensures str[low..end] == Reversed(old(str[low..end]))
    ensures str[..low] == old(str[..low]) && str[end..] == old(str[end..])
  {
    ghost var was := old(str[..]);
    var l, p := low, end - 1;
    while l < p
      invariant low <= l <= p + 1 <= end && l + p == low + end - 1
      invariant forall k | low <= k < l || p < k < end :: str[k] == was[low + end - 1 - k]
      invariant forall k | l <= k <= p || 0 <= k < low || end <= k < str.Length :: str[k] == was[k]
    {
      var tmp := str[l];
      str[l] := str[p];
      l := l + 1;
      str[p] := tmp;
      p := p - 1;
    }
    ReversedSlice(was, str[..], low, end);
    SameAround(was, str[..], low, end);
  }

  lemma SameAround(s: string, t: string, low: nat, end: nat)
    requires low <= end <= |s| == |t| && forall k | 0 <= k < low || end <= k < |s| :: t[k] == s[k]
    ensures t[..low] == s[..low] && t[end..] == s[end..]
  {
  }

  lemma ReversedSlice(s: string, t: string, low: nat, end: nat)
    requires low <= end <= |s| == |t| && forall k | low <= k < end :: t[k] == s[low + end - 1 - k]
    ensures t[low..end] == Reversed(s[low..end])
  {
    var u := s[low..end];
    forall k | 0 <= k < end - low ensures t[low..end][k] == Reversed(u)[k] {
      assert Reversed(u)[k] == u[|u| - 1 - k] == s[end - 1 - k];
      assert t[low + k] == s[low + end - 1 - (low + k)];
    }
  }

  // ---- Reading numbers

  predicate IsDigit(c: char) { '0' <= c <= '9' }

  predicate DigitsIn(mem: string, i: nat, j: nat)
    requires i <= j <= |mem|
  {
    forall k | i <= k < j :: IsDigit(mem[k])
  }

  predicate AllDigits(s: string) { DigitsIn(s, 0, |s|) }

  /** How many digits stand at `at`, up to `limit`. */
  function DigitRun(mem: string, at: nat, limit: nat): (n: nat)
    requires at + limit <= |mem|
    ensures n <= limit && DigitsIn(mem, at, at + n)
    ensures n < limit ==> !IsDigit(mem[at + n])
    decreases limit
  {
    if limit == 0 || !IsDigit(mem[at]) then 0 else 1 + DigitRun(mem, at + 1, limit - 1)
  }

  function Field(mem: string, at: nat): (s: string)
    requires at + 12 <= |mem|
    ensures |s| <= 12 && AllDigits(s)
  {
    mem[at..at + DigitRun(mem, at, 12)]
  }

  /** stoi: the value of the digits at `at`, at most twelve of them. One byte more may be looked at. */
  method Stoi(mem: string, at: nat) returns (i: nat)
    requires at + 12 < |mem|
    ensures i == Value(Field(mem, at), 10)
  {
    i := 0;
    var j := 0;
    while IsDigit(mem[at + j]) && j < 12
      invariant 0 <= j <= 12 && DigitsIn(mem, at, at + j)
      invariant i == ValueIn(mem, at, at + j, 10)
    {
      i := i * 10 + DigitOf(mem[at + j]);
      j := j + 1;
    }
    FieldValue(mem, at, j);
  }

  lemma FieldValue(mem: string, at: nat, j: nat)
    requires at + 12 <= |mem| && j <= 12 && DigitsIn(mem, at, at + j) && (j < 12 ==> !IsDigit(mem[at + j]))
    ensures Value(Field(mem, at), 10) == ValueIn(mem, at, at + j, 10)
  {
    RunLength(mem, at, 12, j);
    ValueOfSlice(mem, at, at + j, 10);
  }

  /** The same value, by positions. */
  function ValueIn(mem: string, i: nat, j: nat, b: nat): nat
    requires i <= j <= |mem| && DigitsIn(mem, i, j)
  {
    if i == j then 0 else ValueIn(mem, i, j - 1, b) * b + DigitOf(mem[j - 1])
  }

  lemma {:induction false} ValueOfSlice(mem: string, i: nat, j: nat, b: nat)
    requires i <= j <= |mem| && DigitsIn(mem, i, j)
    ensures AllDigits(mem[i..j]) && Value(mem[i..j], b) == ValueIn(mem, i, j, b)
    decreases j
  {
    if i < j {
      ValueOfSlice(mem, i, j - 1, b);
      assert mem[i..j][..j - i - 1] == mem[i..j - 1];
    }
  }

  /** The run is where the digits stop. */
  lemma RunLength(mem: string, at: nat, limit: nat, j: nat)
    requires at + limit <= |mem| && j <= limit && DigitsIn(mem, at, at + j)
    requires j < limit ==> !IsDigit(mem[at + j])
    ensures DigitRun(mem, at, limit) == j
  {
    assert DigitsIn(mem, at, at + DigitRun(mem, at, limit));
  }

  function Power(base: nat, pow: nat): nat {
    if pow == 0 then 1 else base * Power(base, pow - 1)
  }

  /** Decimal digits read as octal ones. */
  function OctOf(n: nat): (r: nat)
    ensures r <= n
  {
    if n == 0 then 0 else n % 10 + 8 * OctOf(n / 10)
  }

  /** oct2dec never exceeds its argument, so it cannot overflow. */
  method Oct2Dec(oct: nat) returns (dec: nat)
    ensures dec == OctOf(oct) <= oct
  {
    dec := 0;
    var o: nat, pow: nat := oct, 0;
    while o != 0
      invariant dec + Power(8, pow) * OctOf(o) == OctOf(oct)
      decreases o
    {
      OctStep(dec, Power(8, pow), OctOf(o), o % 10, OctOf(o / 10), OctOf(oct));
      dec := dec + (o % 10) * Power(8, pow);
      pow := pow + 1;
      o := o / 10;
    }
  }

  lemma OctStep(dec: nat, p: nat, w: nat, d: nat, r: nat, total: nat)
    requires w == d + 8 * r && dec + p * w == total
    ensures dec + d * p + (8 * p) * r == total
  {
    assert p * (d + 8 * r) == d * p + (8 * p) * r;
  }

  predicate IsOctal(s: string) { AllDigits(s) && forall k | 0 <= k < |s| :: s[k] <= '7' }

  /** Reading a field as decimal and converting gives its octal value. */
  lemma {:induction false} OctalField(s: string)
    requires IsOctal(s)
    ensures OctOf(Value(s, 10)) == Value(s, 8)
  {
    if s != "" {
      var t, d := s[..|s| - 1], DigitOf(s[|s| - 1]);
      OctalField(t);
      var n := Value(t, 10);
      assert (n * 10 + d) / 10 == n && (n * 10 + d) % 10 == d;
    }
  }

  lemma {:induction false} DecimalDigits(n: nat)
    ensures AllDigits(Numeral(n, 10))
  {
    if n >= 10 { DecimalDigits(n / 10); }
  }

  lemma {:induction false} NumeralLength(n: nat, k: nat)
    requires 0 < k && n < Power(10, k)
    ensures |Numeral(n, 10)| <= k
  {
    if n >= 10 {
      assert n / 10 < Power(10, k - 1);
      NumeralLength(n / 10, k - 1);
    }
  }

  lemma IntLength(v: nat)
    requires v <= -INT_MIN
    ensures |Numeral(v, 10)| <= 10
  {
    assert Power(10, 3) == 1000;
    assert Power(10, 6) == 1000 * Power(10, 3);
    assert Power(10, 9) == 1000 * Power(10, 6);
    assert Power(10, 10) == 10 * Power(10, 9);
    NumeralLength(v, 10);
  }

  /** The sign is there for negative decimals and nothing else, and the number behind it is the opposite one. */
  lemma SignedText(v: int, base: nat)
    requires 2 <= base <= 36
    ensures Text(v, base) != "" && (Text(v, base)[0] == '-' <==> v < 0 && base == 10)
    ensures v < 0 ==> Text(v, base) == (if base == 10 then "-" else "") + Text(-v, base)
  {
    NumeralDenotes(Abs(v), base);
  }

  /** The number at `at`, with an optional sign in front of what stoi reads. */
  function Reading(mem: string, at: nat): int
    requires at + 13 <= |mem|
  {
    if mem[at] == '-' then 0 - Value(Field(mem, at + 1), 10) else Value(Field(mem, at), 10)
  }

  /** stoi, behind an optional sign, reads back what itoa wrote in base 10, for every int. */
  lemma RoundTrip(v: int, mem: string, at: nat)
    requires INT_MIN <= v <= INT_MAX && at + 13 < |mem|
    requires var s := Text(v, 10); at + |s| < |mem| && mem[at..at + |s|] == s && mem[at + |s|] == '\0'
    ensures Reading(mem, at) == v
  {
    var s, n := Text(v, 10), Numeral(Abs(v), 10);
    SignedText(v, 10);
    assert mem[at] == mem[at..at + |s|][0];
    if v < 0 {
      assert mem[at + 1..at + 1 + |n|] == mem[at..at + |s|][1..] == n;
      NumeralRead(Abs(v), mem, at + 1);
    } else {
      assert s == n;
      NumeralRead(Abs(v), mem, at);
    }
  }

  lemma NumeralRead(n: nat, mem: string, at: nat)
    requires n <= -INT_MIN && at + 12 < |mem|
    requires var s := Numeral(n, 10); at + |s| < |mem| && mem[at..at + |s|] == s && mem[at + |s|] == '\0'
    ensures Value(Field(mem, at), 10) == n
  {
    DecimalDigits(n);
    NumeralDenotes(n, 10);
    IntLength(n);
    FieldOf(mem, at, Numeral(n, 10));
  }

  lemma FieldOf(mem: string, at: nat, s: string)
    requires AllDigits(s) && |s| < 12 && at + 12 < |mem| && mem[at..at + |s|] == s && !IsDigit(mem[at + |s|])
    ensures Field(mem, at) == s
  {
    assert forall k | at <= k < at + |s| :: mem[k] == mem[at..at + |s|][k - at];
    RunLength(mem, at, 12, |s|);
  }
}
