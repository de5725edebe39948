/** Arbitrary precision arithmetic on arrays of 16-bit digits, most significant digit first. */
module Apa {

  const BITS := 16
  const BASE := 65536

  type Digit = x: nat | x < 65536

  function Pow(b: nat, k: nat): nat {
    if k == 0 then 1 else b * Pow(b, k - 1)
  }

  lemma {:induction false} PowPositive(b: nat, k: nat)
    requires b > 0
    ensures Pow(b, k) > 0
  {
    if k > 0 {
      PowPositive(b, k - 1);
    }
  }

  lemma {:induction false} PowAdd(b: nat, j: nat, k: nat)
    ensures Pow(b, j + k) == Pow(b, j) * Pow(b, k)
  {
    if j > 0 {
      PowAdd(b, j - 1, k);
      MulAssoc(b, Pow(b, j - 1), Pow(b, k));
    }
  }

  lemma MulAssoc(x: int, y: int, z: int)
    ensures x * (y * z) == (x * y) * z
  {
  }

  lemma Distribute(x: int, y: int, p: int)
    ensures (x + y) * p == x * p + y * p && (x - y) * p == x * p - y * p
  {
  }

  /** The number a digit string stands for, in the given base. */
  function Value(base: nat, s: seq<nat>): nat {
    if s == [] then 0 else s[0] * Pow(base, |s| - 1) + Value(base, s[1..])
  }

  lemma {:induction false} ValueSnoc(base: nat, s: seq<nat>, d: nat)
    ensures Value(base, s + [d]) == Value(base, s) * base + d
  {
    if s != [] {
      ValueSnoc(base, s[1..], d);
      assert (s + [d])[1..] == s[1..] + [d];
      MulAssoc(s[0], Pow(base, |s| - 1), base);
      Distribute(s[0] * Pow(base, |s| - 1), Value(base, s[1..]), base);
    }
  }

  /** A digit string of length n is less than base to the n. */
  lemma {:induction false} ValueBound(base: nat, s: seq<nat>)
    requires base > 0 && forall i :: 0 <= i < |s| ==> s[i] < base
    ensures Value(base, s) < Pow(base, |s|)
  {
    if s != [] {
      ValueBound(base, s[1..]);
      assert s[0] + 1 <= base;
      MulMonotonic(s[0] + 1, base, Pow(base, |s| - 1));
      Distribute(s[0], 1, Pow(base, |s| - 1));
    }
  }

  lemma MulMonotonic(x: int, y: int, p: nat)
    requires x <= y
    ensures x * p <= y * p
  {
  }

  lemma ValueEmpty(s: seq<nat>)
    requires s == []
    ensures Value(BASE, s) == 0 && Pow(BASE, 0) == 1
  {
  }

  /** The value of digits i and beyond, as the next digit is put in front. */
  lemma ValueStep(s: seq<nat>, i: nat)
    requires i < |s|
    ensures Value(BASE, s[i..]) == s[i] * Pow(BASE, |s| - 1 - i) + Value(BASE, s[i + 1..])
    ensures Pow(BASE, |s| - i) == BASE * Pow(BASE, |s| - 1 - i)
  {
  }

  lemma {:induction false} ValueZero(s: seq<nat>)
    requires forall i :: 0 <= i < |s| ==> s[i] == 0
    ensures Value(BASE, s) == 0
  {
    if s != [] {
      ValueZero(s[1..]);
    }
  }

  function NumberOfDigits(binaryDigits: nat): (digits: nat)
    ensures BITS * (digits - 1) < binaryDigits <= BITS * digits || digits == binaryDigits == 0
  {
    var digits := binaryDigits / BITS;
    if digits * BITS != binaryDigits then digits + 1 else digits
  }

  method ApaCopy(source: array<Digit>, dest: array<Digit>)
    requires source.Length == dest.Length
    modifies dest
    ensures dest[..] == old(source[..])
  {
    for i := 0 to source.Length
      invariant dest[..i] == old(source[..i])
      invariant source != dest ==> source[..] == old(source[..])
      invariant source == dest ==> dest[..] == old(dest[..])
    {
      dest[i] := source[i];
    }
  }

  /* ---------- addition and subtraction ---------- */

  lemma AddStep(a: nat, b: nat, carry: nat, p: nat, va: nat, vb: nat, vs: nat)
    requires carry * p + vs == va + vb
    ensures var partial := a + b + carry;
            (partial / BASE) * (BASE * p) + ((partial % BASE) * p + vs) == (a * p + va) + (b * p + vb)
  {
  }

  /** sum := a + b, digit by digit from the end; returns the carry out. sum may be a or b. */
  method ApaAdd(a: array<Digit>, b: array<Digit>, sum: array<Digit>) returns (carryout: Digit)
    requires a.Length == b.Length == sum.Length
    modifies sum
    ensures carryout <= 1
    ensures carryout * Pow(BASE, sum.Length) + Value(BASE, sum[..]) ==
            Value(BASE, old(a[..])) + Value(BASE, old(b[..]))
  {
    ghost var a0, b0: seq<nat> := a[..], b[..];
    var n := sum.Length;
    var partial: nat := 0;
    var i := n;
    while i > 0
      invariant 0 <= i <= n && partial < 2 * BASE
      invariant forall j :: 0 <= j < i ==> a[j] == a0[j] && b[j] == b0[j]
      invariant (partial / BASE) * Pow(BASE, n - i) + Value(BASE, sum[i..]) ==
                Value(BASE, a0[i..]) + Value(BASE, b0[i..])
    {
      i := i - 1;
      ghost var before: seq<nat> := sum[i + 1..];
      ghost var carry := partial / BASE;
      partial := a[i] + b[i] + partial / BASE;
      sum[i] := partial % BASE;
      assert sum[i + 1..] == before;
      ValueStep(sum[..], i);
      assert sum[..][i..] == sum[i..] && sum[..][i + 1..] == sum[i + 1..];
      ValueStep(a0, i);
      ValueStep(b0, i);
      AddStep(a0[i], b0[i], carry, Pow(BASE, n - 1 - i), Value(BASE, a0[i + 1..]),
              Value(BASE, b0[i + 1..]), Value(BASE, before));
    }
    assert sum[0..] == sum[..] && a0[0..] == a0 && b0[0..] == b0;
    carryout := partial / BASE;
  }

  lemma SubtractStep(a: nat, b: nat, m: nat, p: nat, va: nat, vb: nat, vd: nat)
    requires a < BASE && b < BASE && m <= 1 && va + (1 - m) * p == vb + vd
    ensures var partial := a - b + m + (BASE - 1);
            && 0 <= partial < 2 * BASE
            && (a * p + va) + (1 - partial / BASE) * (BASE * p) == (b * p + vb) + ((partial % BASE) * p + vd)
  {
  }

  /** diff := a - b, modulo the capacity. Returns 0, or 65535 when a is less than b. diff may be a or b. */
  method ApaSubtract(a: array<Digit>, b: array<Digit>, diff: array<Digit>) returns (borrow: Digit)
    requires a.Length == b.Length == diff.Length
    modifies diff
    ensures borrow == if Value(BASE, old(a[..])) >= Value(BASE, old(b[..])) then 0 else BASE - 1
    ensures Value(BASE, diff[..]) == Value(BASE, old(a[..])) - Value(BASE, old(b[..])) +
                                     if borrow == 0 then 0 else Pow(BASE, diff.Length)
  {
    hide Value, Pow;
    ghost var a0, b0: seq<nat> := a[..], b[..];
    var n := diff.Length;
    var partial: nat := BASE;
    ghost var m := 1;
    var i := n;
    ValueEmpty(a0[n..]);
    ValueEmpty(b0[n..]);
    ValueEmpty(diff[n..]);
    while i > 0
      invariant 0 <= i <= n && m == partial / BASE && 0 <= m <= 1
      invariant forall j :: 0 <= j < i ==> a[j] == a0[j] && b[j] == b0[j]
      invariant Value(BASE, a0[i..]) + (1 - m) * Pow(BASE, n - i) ==
                Value(BASE, b0[i..]) + Value(BASE, diff[i..])
    {
      i := i - 1;
      ghost var before: seq<nat> := diff[i + 1..];
      SubtractStep(a0[i], b0[i], m, Pow(BASE, n - 1 - i), Value(BASE, a0[i + 1..]),
                   Value(BASE, b0[i + 1..]), Value(BASE, before));
      partial := a[i] - b[i] + partial / BASE + (BASE - 1);
      m := partial / BASE;
      diff[i] := partial % BASE;
      assert diff[i + 1..] == before;
      ValueStep(diff[..], i);
      assert diff[..][i..] == diff[i..] && diff[..][i + 1..] == diff[i + 1..];
      ValueStep(a0, i);
      ValueStep(b0, i);
    }
    assert diff[0..] == diff[..] && a0[0..] == a0 && b0[0..] == b0;
    ValueBound(BASE, diff[..]);
    borrow := if partial / BASE == 1 then 0 else BASE - 1;
  }

  /* ---------- division by a digit ---------- */

  /** The largest value of a C int, plus one. */
  const INT_LIMIT := 0x8000_0000

  /** Whether long division of the digits meets a partial dividend that no int can hold. */
  predicate Overflows(dividend: seq<nat>, divisor: nat)
    requires divisor > 0
  {
    exists i :: 0 <= i < |dividend| && Partial(dividend, divisor, i) >= INT_LIMIT
  }

  /** The remainder carried into digit i. */
  function Carried(dividend: seq<nat>, divisor: nat, i: nat): nat
    requires divisor > 0 && i <= |dividend|
    decreases i, 0
  {
    if i == 0 then 0 else Partial(dividend, divisor, i - 1) % divisor
  }

  function Partial(dividend: seq<nat>, divisor: nat, i: nat): nat
    requires divisor > 0 && i < |dividend|
    decreases i, 1
  {
    Carried(dividend, divisor, i) * BASE + dividend[i]
  }

  /** The int product is representable for every dividend exactly when the divisor is at most 2^15. */
  lemma SafeDivisors(divisor: nat)
    requires 0 < divisor < BASE
    ensures (forall dividend: seq<Digit> :: !Overflows(dividend, divisor)) <==> divisor <= 0x8000
  {
    if divisor <= 0x8000 {
      forall dividend: seq<Digit> ensures !Overflows(dividend, divisor) {
        forall i | 0 <= i < |dividend| ensures Partial(dividend, divisor, i) < INT_LIMIT {
          CarriedBound(dividend, divisor, i);
        }
      }
    } else {
      WideDivisorOverflows(divisor);
    }
  }

  lemma CarriedBound(dividend: seq<nat>, divisor: nat, i: nat)
    requires divisor > 0 && i <= |dividend|
    ensures Carried(dividend, divisor, i) < divisor
  {
  }

  /** Dividing 2^31 by a digit above 2^15 overflows at its second digit. */
  lemma WideDivisorOverflows(divisor: nat)
    requires 0x8000 < divisor
    ensures var dividend: seq<Digit> := [0x8000, 0]; Overflows(dividend, divisor)
  {
    var dividend: seq<Digit> := [0x8000, 0];
    assert Partial(dividend, divisor, 0) == 0x8000;
    assert Carried(dividend, divisor, 1) == 0x8000;
    assert Partial(dividend, divisor, 1) == INT_LIMIT;
  }

  lemma DivisionStep(v: nat, q: nat, divisor: nat, r: nat, d: nat)
    requires divisor > 0 && v == q * divisor + r
    ensures var partial := r * BASE + d;
            v * BASE + d == (q * BASE + partial / divisor) * divisor + partial % divisor
  {
  }

  /** quotient, remainder := dividend / divisor, digit by digit from the front. The partial dividend is
      an int product: beyond the int range its value is undefined. quotient may be dividend. */
  method ApaShortDivision(dividend: array<Digit>, divisor: Digit, quotient: array<Digit>)
    returns (remainder: Digit)
    requires dividend.Length == quotient.Length && divisor > 0
    modifies quotient
    ensures remainder < divisor
    ensures !Overflows(old(dividend[..]), divisor) ==>
              Value(BASE, old(dividend[..])) == Value(BASE, quotient[..]) * divisor + remainder
  {
    hide Value, Pow, Overflows;
    ghost var n0: seq<nat> := dividend[..];
    remainder := 0;
    ghost var defined := true;
    ValueEmpty(n0[..0]);
    ValueEmpty(quotient[..0]);
    for i := 0 to dividend.Length
      invariant remainder < divisor && (!defined ==> Overflows(n0, divisor))
      invariant forall j :: i <= j < dividend.Length ==> dividend[j] == n0[j]
      invariant defined ==> remainder == Carried(n0, divisor, i)
      invariant defined ==> Value(BASE, n0[..i]) == Value(BASE, quotient[..i]) * divisor + remainder
    {
      var partial: nat := remainder * BASE + dividend[i];
      if partial >= INT_LIMIT {
        if defined {
          OverflowsAt(n0, divisor, i);
        }
        partial := *;
        defined := false;
      }
      ghost var before: seq<nat> := quotient[..i];
      ghost var r := remainder;
      quotient[i] := (partial / divisor) % BASE;
      remainder := partial % divisor;
      assert quotient[..i] == before;
      assert quotient[..i + 1] == before + [quotient[i]];
      if defined {
        DivideDigit(n0, i, before, divisor, r);
      }
    }
    assert n0[..|n0|] == n0 && quotient[..quotient.Length] == quotient[..];
  }

  lemma OverflowsAt(dividend: seq<nat>, divisor: nat, i: nat)
    requires divisor > 0 && i < |dividend| && Partial(dividend, divisor, i) >= INT_LIMIT
    ensures Overflows(dividend, divisor)
  {
  }

  /** One more digit of the dividend gives one more digit of the quotient. */
  lemma DivideDigit(n0: seq<nat>, i: nat, quotient: seq<nat>, divisor: nat, r: nat)
    requires i < |n0| && n0[i] < BASE && 0 < divisor && r < divisor
    requires Value(BASE, n0[..i]) == Value(BASE, quotient) * divisor + r
    ensures var partial := r * BASE + n0[i];
            && (partial / divisor) % BASE == partial / divisor
            && Value(BASE, n0[..i + 1]) ==
               Value(BASE, quotient + [(partial / divisor) % BASE]) * divisor + partial % divisor
  {
    hide Value, Pow;
    QuotientDigit(r, n0[i], divisor);
    assert n0[..i + 1] == n0[..i] + [n0[i]];
    ValueSnoc(BASE, n0[..i], n0[i]);
    ValueSnoc(BASE, quotient, (r * BASE + n0[i]) / divisor);
    DivisionStep(Value(BASE, n0[..i]), Value(BASE, quotient), divisor, r, n0[i]);
  }

  /** Each quotient digit fits in a digit. */
  lemma QuotientDigit(r: nat, d: nat, divisor: nat)
    requires r < divisor && d < BASE
    ensures (r * BASE + d) / divisor < BASE
  {
  }

  /* ---------- shift, literals, powers ---------- */

  lemma ShiftStep(a: nat, above: nat, below: nat, p: nat, va: nat, vb: nat)
    requires p >= 0 && 2 * vb + below == va + (a % 2) * p
    ensures 2 * ((a / 2 + (above % 2) * 0x8000) * p + vb) + below == (a * p + va) + (above % 2) * (BASE * p)
  {
  }

  /** b := a shifted right by one bit, the new top bit taken from carry_in. b may be a. */
  method ApaShiftRight(carryIn: Digit, a: array<Digit>, b: array<Digit>)
    requires a.Length == b.Length > 0
    modifies b
    ensures 2 * Value(BASE, b[..]) + old(a[a.Length - 1]) % 2 ==
            Value(BASE, old(a[..])) + (carryIn % 2) * Pow(BASE, b.Length)
  {
    ghost var a0: seq<nat> := a[..];
    var n := b.Length;
    ghost var low := a0[n - 1] % 2;
    var i := n - 1;
    assert a0[n..] == [] && b[n..] == [];
    while i > 0
      invariant 0 <= i < n
      invariant forall j :: 0 <= j <= i ==> a[j] == a0[j]
      invariant 2 * Value(BASE, b[i + 1..]) + low ==
                Value(BASE, a0[i + 1..]) + (a0[i] % 2) * Pow(BASE, n - 1 - i)
    {
      ghost var before: seq<nat> := b[i + 1..];
      b[i] := a[i] / 2 + (a[i - 1] % 2) * 0x8000;
      assert b[i + 1..] == before;
      ShiftDigit(b[..], a0, i, a0[i - 1], low);
      i := i - 1;
    }
    ghost var before: seq<nat> := b[1..];
    b[0] := a[0] / 2 + (carryIn % 2) * 0x8000;
    assert b[1..] == before;
    ShiftDigit(b[..], a0, 0, carryIn, low);
    assert b[..][0..] == b[..] && a0[0..] == a0;
  }

  lemma ShiftDigit(b: seq<nat>, a0: seq<nat>, i: nat, above: nat, low: nat)
    requires i < |b| == |a0| && b[i] == a0[i] / 2 + (above % 2) * 0x8000
    requires 2 * Value(BASE, b[i + 1..]) + low ==
             Value(BASE, a0[i + 1..]) + (a0[i] % 2) * Pow(BASE, |b| - 1 - i)
    ensures 2 * Value(BASE, b[i..]) + low == Value(BASE, a0[i..]) + (above % 2) * Pow(BASE, |b| - i)
  {
    ValueStep(b, i);
    ValueStep(a0, i);
    ShiftStep(a0[i], above, low, Pow(BASE, |b| - 1 - i), Value(BASE, a0[i + 1..]), Value(BASE, b[i + 1..]));
  }

  method ApaSetToLiteral(number: array<Digit>, literal: Digit)
    requires number.Length > 0
    modifies number
    ensures Value(BASE, number[..]) == literal
  {
    var n := number.Length;
    for i := 0 to n - 1
      invariant forall j :: 0 <= j < i ==> number[j] == 0
    {
      number[i] := 0;
    }
    number[n - 1] := literal;
    assert number[..] == number[..n - 1] + [literal];
    ValueZero(number[..n - 1]);
    ValueSnoc(BASE, number[..n - 1], literal);
  }

  /** A single nonzero digit at position i. */
  lemma {:induction false} ValueSingle(s: seq<nat>, i: nat)
    requires i < |s| && forall j :: 0 <= j < |s| && j != i ==> s[j] == 0
    ensures Value(BASE, s) == s[i] * Pow(BASE, |s| - 1 - i)
  {
    if i == 0 {
      ValueZero(s[1..]);
    } else {
      ValueSingle(s[1..], i - 1);
    }
  }

  lemma PowSplit(power: nat)
    ensures Pow(2, power) == Pow(2, power % BITS) * Pow(BASE, power / BITS)
  {
    BasePower(power / BITS);
    PowAdd(2, power % BITS, BITS * (power / BITS));
  }

  lemma {:induction false} BasePower(k: nat)
    ensures Pow(2, BITS * k) == Pow(BASE, k)
  {
    if k > 0 {
      BasePower(k - 1);
      PowAdd(2, BITS, BITS * (k - 1));
      assert Pow(2, 8) == 256;
      assert Pow(2, 16) == BASE;
    }
  }

  /** number := 2^power, or 0 if that does not fit. */
  method ApaPowerOfTwo(number: array<Digit>, power: nat)
    modifies number
    ensures Value(BASE, number[..]) == if power / BITS < number.Length then Pow(2, power) else 0
  {
    for i := 0 to number.Length
      invariant forall j :: 0 <= j < i ==> number[j] == 0
    {
      number[i] := 0;
    }
    var i := number.Length - 1 - power / BITS;
    if i < 0 {
      ValueZero(number[..]);
      return;
    }
    SmallPower(power % BITS);
    number[i] := Pow(2, power % BITS);
    ValueSingle(number[..], i);
    PowSplit(power);
  }

  lemma SmallPower(k: nat)
    requires k < BITS
    ensures Pow(2, k) < BASE
  {
    assert Pow(2, 8) == 256;
    assert Pow(2, 15) == 0x8000;
    PowPositive(2, 15 - k);
    PowAdd(2, k, 15 - k);
    MulMonotonic(1, Pow(2, 15 - k), Pow(2, k));
  }

  /* ---------- comparison ---------- */

  /** Skips the leading zeros. */
  method FirstNonZero(s: array<Digit>) returns (nz: nat)
    ensures nz <= s.Length && (nz < s.Length ==> s[nz] != 0)
    ensures Value(BASE, s[nz..]) == Value(BASE, s[..])
  {
    nz := 0;
    assert s[0..] == s[..];
    while nz < s.Length && s[nz] == 0
      invariant nz <= s.Length && Value(BASE, s[nz..]) == Value(BASE, s[..])
    {
      assert s[nz..][1..] == s[nz + 1..];
      nz := nz + 1;
    }
  }

  /** The longer of two digit strings without leading zeros is the larger. */
  lemma LongerIsLarger(s: seq<nat>, t: seq<nat>)
    requires |s| > |t| && s[0] != 0 && forall i :: 0 <= i < |t| ==> t[i] < BASE
    ensures Value(BASE, s) > Value(BASE, t)
  {
    ValueBound(BASE, t);
    PowPositive(BASE, |s| - 1);
    MulMonotonic(1, s[0], Pow(BASE, |s| - 1));
    PowAdd(BASE, |s| - 1 - |t|, |t|);
    PowPositive(BASE, |s| - 1 - |t|);
    MulMonotonic(1, Pow(BASE, |s| - 1 - |t|), Pow(BASE, |t|));
  }

  /** Of two digit strings that agree before digit i, the one with the larger digit is the larger. */
  lemma {:induction false} LargerDigit(s: seq<nat>, t: seq<nat>, i: nat)
    requires i < |s| == |t| && s[..i] == t[..i] && s[i] > t[i]
    requires forall j :: 0 <= j < |t| ==> t[j] < BASE
    ensures Value(BASE, s) > Value(BASE, t)
  {
    if i == 0 {
      ValueBound(BASE, t[1..]);
      MulMonotonic(t[0] + 1, s[0], Pow(BASE, |s| - 1));
      Distribute(t[0], 1, Pow(BASE, |s| - 1));
    } else {
      assert s[0] == s[..i][0] && t[0] == t[..i][0];
      assert s[1..][..i - 1] == s[..i][1..] && t[1..][..i - 1] == t[..i][1..];
      LargerDigit(s[1..], t[1..], i - 1);
    }
  }

  /** 1, 0 or -1 as the first number is larger, equal or smaller; the lengths may differ. */
  method ApaCompare(first: array<Digit>, second: array<Digit>) returns (c: int)
    ensures c == (if Value(BASE, first[..]) > Value(BASE, second[..]) then 1
                  else if Value(BASE, first[..]) == Value(BASE, second[..]) then 0 else -1)
  {
    var firstNZ := FirstNonZero(first);
    var secondNZ := FirstNonZero(second);
    ghost var s, t: seq<nat> := first[firstNZ..], second[secondNZ..];
    if first.Length - firstNZ > second.Length - secondNZ {
      LongerIsLarger(s, t);
      return 1;
    } else if first.Length - firstNZ < second.Length - secondNZ {
      LongerIsLarger(t, s);
      return -1;
    }
    var n := first.Length - firstNZ;
    for i := 0 to n
      invariant s[..i] == t[..i]
    {
      if first[firstNZ + i] > second[secondNZ + i] {
        LargerDigit(s, t, i);
        return 1;
      } else if first[firstNZ + i] < second[secondNZ + i] {
        LargerDigit(t, s, i);
        return -1;
      }
      assert s[..i + 1] == s[..i] + [s[i]] && t[..i + 1] == t[..i] + [t[i]];
    }
    assert s == s[..n] && t == t[..n];
    c := 0;
  }

  /* ---------- decimal output ---------- */

  lemma DecimalStep(v: nat, w: nat, r: nat, p: nat, d: nat, total: nat)
    requires total == v * p + d && v == w * 10 + r
    ensures total == w * (10 * p) + (r * p + d)
  {
  }

  /** The digits printed for a number: most significant first, no leading zero except for 0 itself.
      decimalDigits is the length of the buffer, large enough for every number of that many digits. */
  method ApaPrintDecimal(number: array<Digit>, decimalDigits: nat) returns (out: seq<nat>)
    requires decimalDigits > 0 && Pow(BASE, number.Length) <= Pow(10, decimalDigits)
    ensures Value(10, out) == Value(BASE, number[..])
    ensures out != [] && (out[0] == 0 ==> out == [0])
    ensures forall i :: 0 <= i < |out| ==> out[i] < 10
  {
    var decimal := DecimalDigits(number, decimalDigits);
    out := DropLeadingZeros(decimal);
  }

  /** The decimal digits, least significant first computed, by repeated division in place. */
  method DecimalDigits(number: array<Digit>, decimalDigits: nat) returns (decimal: array<nat>)
    requires decimalDigits > 0 && Pow(BASE, number.Length) <= Pow(10, decimalDigits)
    ensures fresh(decimal) && decimal.Length == decimalDigits
    ensures Value(10, decimal[..]) == Value(BASE, number[..])
    ensures forall i :: 0 <= i < decimal.Length ==> decimal[i] < 10
  {
    hide Value, Pow, Overflows;
    var work := new Digit[number.Length];
    ApaCopy(number, work);
    decimal := new nat[decimalDigits];
    ghost var total := Value(BASE, number[..]);
    var i := decimalDigits;
    TenEmpty(decimal[i..]);
    while i > 0
      invariant 0 <= i <= decimalDigits && work.Length == number.Length
      invariant forall j :: i <= j < decimalDigits ==> decimal[j] < 10
      invariant total == Value(BASE, work[..]) * Pow(10, decimalDigits - i) + Value(10, decimal[i..])
    {
      i := i - 1;
      ghost var before: seq<nat> := decimal[i + 1..];
      ghost var v := Value(BASE, work[..]);
      SafeDivisors(10);
      var remainder := ApaShortDivision(work, 10, work);
      decimal[i] := remainder;
      assert decimal[i + 1..] == before;
      TenStep(decimal[..], i);
      assert decimal[..][i..] == decimal[i..] && decimal[..][i + 1..] == decimal[i + 1..];
      DecimalStep(v, Value(BASE, work[..]), remainder, Pow(10, decimalDigits - 1 - i), Value(10, before), total);
    }
    assert decimal[0..] == decimal[..];
    ValueBound(BASE, number[..]);
    NothingLeft(total, Value(BASE, work[..]), Pow(10, decimalDigits), Value(10, decimal[..]));
  }

  lemma TenEmpty(s: seq<nat>)
    requires s == []
    ensures Value(10, s) == 0 && Pow(10, 0) == 1
  {
  }

  lemma TenStep(s: seq<nat>, i: nat)
    requires i < |s|
    ensures Value(10, s[i..]) == s[i] * Pow(10, |s| - 1 - i) + Value(10, s[i + 1..])
    ensures Pow(10, |s| - i) == 10 * Pow(10, |s| - 1 - i)
  {
  }

  lemma NothingLeft(total: nat, w: nat, p: nat, d: nat)
    requires total == w * p + d && total < p
    ensures total == d
  {
  }

  method DropLeadingZeros(decimal: array<nat>) returns (out: seq<nat>)
    requires decimal.Length > 0 && forall i :: 0 <= i < decimal.Length ==> decimal[i] < 10
    ensures Value(10, out) == Value(10, decimal[..])
    ensures out != [] && (out[0] == 0 ==> out == [0])
    ensures forall i :: 0 <= i < |out| ==> out[i] < 10
  {
    hide Value;
    var leadingzero := true;
    out := [];
    var n := decimal.Length;
    TenEmpty(decimal[..0]);
    TenEmpty([]);
    for i := 0 to n
      invariant Value(10, out) == Value(10, decimal[..i])
      invariant leadingzero && i < n ==> out == []
      invariant leadingzero && i == n ==> out == [0]
      invariant !leadingzero ==> out != [] && out[0] != 0
      invariant forall j :: 0 <= j < |out| ==> out[j] < 10
    {
      assert decimal[..i + 1] == decimal[..i] + [decimal[i]];
      ValueSnoc(10, decimal[..i], decimal[i]);
      ValueSnoc(10, out, decimal[i]);
      leadingzero := leadingzero && decimal[i] == 0;
      if !leadingzero || i == n - 1 {
        out := out + [decimal[i]];
      }
    }
    assert decimal[..n] == decimal[..];
  }
}
