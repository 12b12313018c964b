/** 64-bit arithmetic out of 32-bit words (bcmutils.c). Every word is a number below 2^32 and every operation wraps there. */
module Uint64 {
  import opened Modular

  const TWO16: nat := 0x1_0000
  const TWO31: nat := 0x8000_0000
  const TWO32: nat := 0x1_0000_0000

  ghost predicate Word(x: int) {
    0 <= x < TWO32
  }

  // ---------------------------------------------------------------- multiply and add

  /** `FORMALIZE`: move bit 31 of a word into the carry count. */
  method Formalize(v: nat, cc: nat) returns (v': nat, cc': nat)
    requires Word(v)
    ensures v' < TWO31 && cc' <= cc + 1
    ensures v' + cc' * TWO31 == v + cc * TWO31
  {
    cc' := cc + if v >= TWO31 then 1 else 0;
    v' := v % TWO31;
  }

  /** The four partial products of two words cut in halves. */
  lemma Halves(a1: nat, a0: nat, b1: nat, b0: nat)
    ensures (a1 * TWO16 + a0) * (b1 * TWO16 + b0)
         == a1 * b1 * TWO32 + (a1 * b0 + a0 * b1) * TWO16 + a0 * b0
  {
    var x, y := a1 * TWO16, b1 * TWO16 + b0;
    assert (x + a0) * y == x * y + a0 * y;
    assert x * y == a1 * (TWO16 * y);
    assert a1 * (TWO16 * y) == a1 * (b1 * TWO32 + b0 * TWO16);
    assert a1 * (b1 * TWO32 + b0 * TWO16) == a1 * (b1 * TWO32) + a1 * (b0 * TWO16);
    assert a1 * (b1 * TWO32) == a1 * b1 * TWO32 && a1 * (b0 * TWO16) == a1 * b0 * TWO16;
    assert a0 * y == a0 * (b1 * TWO16) + a0 * b0;
    assert a0 * (b1 * TWO16) == a0 * b1 * TWO16;
  }

  lemma MulBelow(x: nat, y: nat, m: nat, n: nat)
    requires x <= m && y <= n
    ensures 0 <= x * y <= m * n
  {
    assert m * n == x * y + (m - x) * y + m * (n - y);
    assert (m - x) * y >= 0 && m * (n - y) >= 0;
  }

  /** A half product shifted up by 16 in 32 bits loses its high half. */
  lemma ShiftUp(q: nat)
    ensures q * TWO16 % TWO32 == q % TWO16 * TWO16
  {
    assert q * TWO16 == q / TWO16 * TWO32 + q % TWO16 * TWO16;
    ModUnique(q * TWO16, q / TWO16, q % TWO16 * TWO16, TWO32);
  }

  /** The low word: bit 31 of every term goes to the carry count, and the terms without it cannot overflow. */
  method LowWord(u: nat, q: nat, s: nat, c: nat) returns (r0: nat, cc: nat)
    requires Word(u) && Word(q) && Word(s) && Word(c)
    ensures r0 < TWO31
    ensures r0 + cc * TWO31 == u + q % TWO16 * TWO16 + s % TWO16 * TWO16 + c
  {
    ShiftUp(q);
    ShiftUp(s);
    var t, c0;
    r0, cc := Formalize(u, 0);
    t := q * TWO16 % TWO32;
    t, cc := Formalize(t, cc);
    r0 := r0 + t;
    r0, cc := Formalize(r0, cc);
    t := s * TWO16 % TWO32;
    t, cc := Formalize(t, cc);
    r0 := r0 + t;
    r0, cc := Formalize(r0, cc);
    c0, cc := Formalize(c, cc);
    r0 := r0 + c0;
    r0, cc := Formalize(r0, cc);
  }

  /** Half products, carries and low word together make up the result. */
  lemma Assemble(p: nat, q: nat, s: nat, u: nat, c: nat, r0: nat, cc: nat)
    requires r0 + cc * TWO31 == u + q % TWO16 * TWO16 + s % TWO16 * TWO16 + c
    ensures (p + q / TWO16 + s / TWO16 + cc / 2) * TWO32 + r0 + (if cc % 2 == 1 then TWO31 else 0)
         == p * TWO32 + (q + s) * TWO16 + u + c
  {
    assert q == q / TWO16 * TWO16 + q % TWO16 && s == s / TWO16 * TWO16 + s % TWO16;
    assert cc == cc / 2 * 2 + cc % 2;
  }

  /** `bcm_uint64_multiple_add`: a * b + c, exactly. */
  method MultipleAdd(a: nat, b: nat, c: nat) returns (high: nat, low: nat)
    requires Word(a) && Word(b) && Word(c)
    ensures Word(high) && Word(low)
    ensures high * TWO32 + low == a * b + c
  {
    var a1, a0, b1, b0 := a / TWO16, a % TWO16, b / TWO16, b % TWO16;
    PartsBelow(a1, a0, b1, b0);
    var cc;
    low, cc := LowWord(a0 * b0, a1 * b0, a0 * b1, c);
    Assemble(a1 * b1, a1 * b0, a0 * b1, a0 * b0, c, low, cc);
    high := Wrap(a1 * b1 + a1 * b0 / TWO16 + a0 * b1 / TWO16 + cc / 2);
    low := low + if cc % 2 == 1 then TWO31 else 0;
    Exact(a, b, c, a1 * b1 + a1 * b0 / TWO16 + a0 * b1 / TWO16 + cc / 2, low);
  }

  function Wrap(x: nat): nat {
    x % TWO32
  }

  lemma PartsBelow(a1: nat, a0: nat, b1: nat, b0: nat)
    requires a1 < TWO16 && a0 < TWO16 && b1 < TWO16 && b0 < TWO16
    ensures Word(a1 * b1) && Word(a1 * b0) && Word(a0 * b1) && Word(a0 * b0)
    ensures (a1 * TWO16 + a0) * (b1 * TWO16 + b0)
         == a1 * b1 * TWO32 + (a1 * b0 + a0 * b1) * TWO16 + a0 * b0
  {
    MulBelow(a0, b0, 0xFFFF, 0xFFFF);
    MulBelow(a1, b0, 0xFFFF, 0xFFFF);
    MulBelow(a0, b1, 0xFFFF, 0xFFFF);
    MulBelow(a1, b1, 0xFFFF, 0xFFFF);
    Halves(a1, a0, b1, b0);
  }

  /** The result has 64 bits, so the high word does not wrap. */
  lemma Exact(a: nat, b: nat, c: nat, high: nat, low: nat)
    requires Word(a) && Word(b) && Word(c) && high * TWO32 + low == a * b + c
    ensures Wrap(high) == high
  {
    MulBelow(a, b, TWO32 - 1, TWO32 - 1);
  }

  // ---------------------------------------------------------------- divide

  ghost function Value(high: nat, low: nat): nat {
    high * TWO32 + low
  }

  /** What one round of the loop adds to the quotient falls short by one for each unit of the high word when b divides 2^32. */
  ghost function Short(b: nat, high: nat): nat
    requires b > 0
  {
    if TWO32 % b == 0 then high else 0
  }

  /** The multiplier of a round is the remainder of 2^32. */
  lemma StepRemainder(b: nat)
    requires 2 <= b < TWO32
    ensures ((TWO32 - 1) % b + 1) % b == TWO32 % b
    ensures (TWO32 - 1) / b == TWO32 / b - (if TWO32 % b == 0 then 1 else 0)
  {
    var q, r := (TWO32 - 1) / b, (TWO32 - 1) % b;
    assert TWO32 - 1 == b * q + r;
    if r + 1 == b {
      assert TWO32 == b * (q + 1);
      ModUnique(TWO32, q + 1, 0, b);
      ModUnique(r + 1, 1, 0, b);
    } else {
      ModUnique(TWO32, q, r + 1, b);
      ModUnique(r + 1, 0, r + 1, b);
    }
  }

  /** One round of the loop keeps the value of the quotient. */
  lemma Round(b: nat, a1: nat, a0: nat)
    requires 2 <= b < TWO32
    ensures Value(a1, a0) / b == TWO32 / b * a1 + (TWO32 % b * a1 + a0) / b
  {
    var q, m := TWO32 / b, TWO32 % b;
    var v := m * a1 + a0;
    assert m * a1 >= 0 by { MulBelow(m, a1, m, a1); }
    assert TWO32 == b * q + m;
    assert a1 * TWO32 == a1 * (b * q) + a1 * m;
    assert a1 * (b * q) == b * (q * a1);
    assert v == b * (v / b) + v % b;
    assert b * (q * a1 + v / b) == b * (q * a1) + b * (v / b);
    MulBelow(q, a1, q, a1);
    ModUnique(Value(a1, a0), q * a1 + v / b, v % b, b);
  }

  /** The numbers get smaller: the multiplier is less than 2^32. */
  lemma RoundShrinks(b: nat, a1: nat, a0: nat)
    requires 2 <= b < TWO32 && a1 > 0
    ensures 0 <= TWO32 % b * a1 + a0 < Value(a1, a0)
  {
    var m := TWO32 % b;
    assert Value(a1, a0) - (m * a1 + a0) == (TWO32 - m) * a1;
    MulAtLeast(a1, 0, TWO32 - m);
    MulBelow(m, a1, m, a1);
  }

  lemma Below(x: nat, y: nat, m: nat)
    requires m > 0 && y < m
    ensures (x + y) % m == x % m <==> y == 0
  {
    if (x + y) % m == x % m {
      var p, q := (x + y) / m, x / m;
      assert x + y == m * p + x % m && x == m * q + x % m;
      assert y == m * (p - q) by { assert m * (p - q) == m * p - m * q; }
      if p > q {
        MulAtLeast(m, 0, p - q);
      } else if p < q {
        MulAtLeast(m, 0, q - p);
      }
    }
  }

  lemma DivNat(a: nat, b: nat)
    requires b > 0
    ensures a / b >= 0
  {
  }

  lemma QuotientPositive(b: nat)
    requires 2 <= b < TWO32
    ensures TWO32 / b >= 1
  {
    var q := TWO32 / b;
    assert TWO32 == b * q + TWO32 % b;
    if q <= 0 {
      MulAtLeast(b, q, 1);
    }
  }

  /** No 64-bit number has a quotient smaller than its shortfall. */
  lemma ShortFits(b: nat, high: nat, low: nat)
    requires 2 <= b < TWO32
    ensures Short(b, high) <= Value(high, low) / b
  {
    Round(b, high, low);
    QuotientPositive(b);
    var q, rest := TWO32 / b, TWO32 % b * high + low;
    MulBelow(1, high, q, high);
    MulBelow(TWO32 % b, high, TWO32 % b, high);
    DivNat(rest, b);
  }

  /** What a round adds, and what it leaves to divide. */
  lemma RoundSum(b: nat, a1: nat, a0: nat, total: nat)
    requires 2 <= b < TWO32
    ensures var k := (TWO32 - 1) / b;
      0 <= k * a1 && total + k * a1 + (TWO32 % b * a1 + a0) / b == total + Value(a1, a0) / b - Short(b, a1)
  {
    var k := (TWO32 - 1) / b;
    Round(b, a1, a0);
    StepRemainder(b);
    MulBelow(k, a1, k, a1);
    assert (k + 1) * a1 == k * a1 + a1;
  }

  /** After one round no shortfall is left: when b divides 2^32 the rest is the low word. */
  lemma RoundShort(b: nat, a1: nat, a0: nat, high: nat, low: nat)
    requires 2 <= b < TWO32 && Word(a0) && Word(low)
    requires Value(high, low) == TWO32 % b * a1 + a0
    ensures Short(b, high) == 0
  {
    if TWO32 % b == 0 && high > 0 {
      MulAtLeast(TWO32, 0, high);
      assert false;
    }
  }

  /**
    `bcm_uint64_divide`: the quotient modulo 2^32 when the high word is 0 or b does not divide
    2^32, and otherwise too small by exactly the high word. Divisors below 2 leave *r alone.
   */
  method Divide(r: nat, aHigh: nat, aLow: nat, b: nat) returns (r': nat)
    requires Word(r) && Word(aHigh) && Word(aLow) && Word(b)
    ensures b < 2 ==> r' == r
    ensures b >= 2 ==> r' == (Value(aHigh, aLow) / b - Short(b, aHigh)) % TWO32
    ensures b >= 2 ==> (r' == Value(aHigh, aLow) / b % TWO32 <==> aHigh == 0 || TWO32 % b != 0)
  {
    if b < 2 {
      return r;
    }
    var a1, a0, r0 := aHigh, aLow, 0;
    ghost var total := 0;
    StepRemainder(b);
    while a1 != 0
      invariant Word(a1) && Word(a0) && total >= 0 && r0 == Wrap(total)
      invariant total + Value(a1, a0) / b - Short(b, a1) == Value(aHigh, aLow) / b - Short(b, aHigh)
      decreases Value(a1, a0)
    {
      RoundSum(b, a1, a0, total);
      RoundShrinks(b, a1, a0);
      ghost var u1, u0 := a1, a0;
      r0 := AddWrap(r0, (TWO32 - 1) / b * a1, total);
      total := total + (TWO32 - 1) / b * a1;
      a1, a0 := MultipleAdd(((TWO32 - 1) % b + 1) % b, a1, a0);
      RoundShort(b, u1, u0, a1, a0);
    }
    DivNat(a0, b);
    r' := AddWrap(r0, a0 / b, total);
    ShortFits(b, aHigh, aLow);
    Below(Value(aHigh, aLow) / b - Short(b, aHigh), Short(b, aHigh), TWO32);
  }

  /** Adding in 32 bits. */
  function AddWrap(x: nat, y: nat, ghost total: nat): (r: nat)
    requires x == Wrap(total)
    ensures r == Wrap(total + y)
  {
    Wrap(x + Wrap(y))
  }
}
