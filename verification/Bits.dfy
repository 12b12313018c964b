/** Single bits of 32-bit words: masks, the lowest bit that is set, population counts. */
module Bits {

  /** Bit i of a word, counted from the least significant. */
  predicate Bit(w: bv32, i: nat) {
    if i == 0 then w & 1 == 1 else Bit(w >> 1, i - 1)
  }

  /** The word m is 1 << i. */
  predicate IsMask(m: bv32, i: nat) {
    if i == 0 then m == 1 else m != 0 && m & 1 == 0 && IsMask(m >> 1, i - 1)
  }

  /** The position of the lowest bit that is set. */
  function Lowest(w: bv32): nat
    requires w != 0
    decreases w
  {
    if w & 1 == 1 then 0 else 1 + Lowest(w >> 1)
  }

  // ---------------------------------------------------------------- one step of shifting

  lemma Parity(w: bv32)
    ensures w & 1 == 0 || w & 1 == 1
    ensures w & 1 == 0 && w != 0 ==> w >> 1 != 0
  {
  }

  lemma ShiftOps(w: bv32, m: bv32)
    requires m & 1 == 0
    ensures (w ^ m) >> 1 == (w >> 1) ^ (m >> 1) && (w ^ m) & 1 == w & 1
    ensures (w | m) >> 1 == (w >> 1) | (m >> 1) && (w | m) & 1 == w & 1
    ensures w & m != 0 <==> (w >> 1) & (m >> 1) != 0
  {
  }

  lemma FlipFirst(w: bv32)
    ensures (w ^ 1) >> 1 == w >> 1 && (w | 1) >> 1 == w >> 1
    ensures (w ^ 1) & 1 == 1 - (w & 1) && (w | 1) & 1 == 1
    ensures w & 1 == 0 || w & 1 == 1
  {
  }

  lemma ShiftLowest(w: bv32)
    requires w & 1 == 0 && w != 0
    ensures w >> 1 != 0 && w & -w != 0 && (w & -w) & 1 == 0
    ensures (w & -w) >> 1 == (w >> 1) & -(w >> 1)
  {
  }

  lemma OddLowest(w: bv32)
    requires w & 1 == 1
    ensures w & -w == 1
  {
  }

  // ---------------------------------------------------------------- bits after an operation

  lemma {:induction false} BitXor(w: bv32, m: bv32, i: nat, j: nat)
    requires IsMask(m, i)
    ensures Bit(w ^ m, j) == if i == j then !Bit(w, j) else Bit(w, j)
    decreases i
  {
    if i == 0 {
      FlipFirst(w);
    } else {
      ShiftOps(w, m);
      if j > 0 {
        BitXor(w >> 1, m >> 1, i - 1, j - 1);
      }
    }
  }

  lemma {:induction false} BitOr(w: bv32, m: bv32, i: nat, j: nat)
    requires IsMask(m, i)
    ensures Bit(w | m, j) == (i == j || Bit(w, j))
    decreases i
  {
    if i == 0 {
      FlipFirst(w);
    } else {
      ShiftOps(w, m);
      if j > 0 {
        BitOr(w >> 1, m >> 1, i - 1, j - 1);
      }
    }
  }

  lemma {:induction false} BitTest(w: bv32, m: bv32, i: nat)
    requires IsMask(m, i)
    ensures w & m != 0 <==> Bit(w, i)
    decreases i
  {
    if i == 0 {
      FlipFirst(w);
    } else {
      ShiftOps(w, m);
      BitTest(w >> 1, m >> 1, i - 1);
    }
  }

  lemma {:induction false} NoBits(j: nat)
    ensures !Bit(0, j)
  {
    if j > 0 {
      NoBits(j - 1);
    }
  }

  /** w & -w isolates the lowest bit that is set. */
  lemma {:induction false} LowestBit(w: bv32)
    requires w != 0
    ensures IsMask(w & -w, Lowest(w)) && Bit(w, Lowest(w))
    decreases w
  {
    Parity(w);
    if w & 1 == 0 {
      ShiftLowest(w);
      LowestBit(w >> 1);
    } else {
      OddLowest(w);
    }
  }

  lemma {:induction false} LowestIsLeast(w: bv32, j: nat)
    requires w != 0 && j < Lowest(w)
    ensures !Bit(w, j)
    decreases j
  {
    Parity(w);
    if j > 0 {
      LowestIsLeast(w >> 1, j - 1);
    }
  }

  // ---------------------------------------------------------------- positions of masks

  predicate One(m: bv32) {
    m != 0 && m & (m - 1) == 0
  }

  /** The position of an isolated bit, read off its five binary digits. */
  function Pos(m: bv32): nat {
    (if m & 0xAAAAAAAA != 0 then 1 else 0) + (if m & 0xCCCCCCCC != 0 then 2 else 0)
    + (if m & 0xF0F0F0F0 != 0 then 4 else 0) + (if m & 0xFF00FF00 != 0 then 8 else 0)
    + (if m & 0xFFFF0000 != 0 then 16 else 0)
  }

  lemma PosShift(m: bv32)
    requires One(m) && m & 0x80000000 == 0
    ensures One(m << 1) && Pos(m << 1) == Pos(m) + 1
  {
  }

  lemma PosUnshift(m: bv32)
    requires m != 0 && m & 1 == 0 && One(m >> 1)
    ensures One(m) && Pos(m) == Pos(m >> 1) + 1
  {
  }

  lemma PosTop(m: bv32)
    requires One(m)
    ensures m & 0x80000000 != 0 <==> Pos(m) == 31
  {
  }

  lemma {:induction false} MaskPos(m: bv32, i: nat)
    requires IsMask(m, i)
    ensures One(m) && Pos(m) == i < 32
    decreases i
  {
    if i > 0 {
      MaskPos(m >> 1, i - 1);
      PosUnshift(m);
    }
  }

  lemma ShiftBack(m: bv32)
    requires m != 0 && m & 0x80000000 == 0
    ensures (m << 1) >> 1 == m && m << 1 != 0 && (m << 1) & 1 == 0
  {
  }

  function Mask(i: nat): bv32 {
    if i == 0 then 1 else Mask(i - 1) << 1
  }

  lemma {:induction false} MaskIsMask(i: nat)
    requires i < 32
    ensures IsMask(Mask(i), i)
  {
    if i > 0 {
      MaskIsMask(i - 1);
      MaskPos(Mask(i - 1), i - 1);
      PosTop(Mask(i - 1));
      ShiftBack(Mask(i - 1));
    }
  }

  /** 1U << i. */
  method Shl1(i: nat) returns (m: bv32)
    requires i < 32
    ensures IsMask(m, i)
  {
    m := Mask(i);
    MaskIsMask(i);
  }

  function Clz(w: bv32): nat
    decreases if w == 0 then 0 else 0xFFFFFFFF - w
  {
    if w == 0 then 32 else if w & 0x80000000 != 0 then 0 else 1 + Clz(w << 1)
  }

  lemma {:induction false} ClzOne(m: bv32)
    requires One(m) && Pos(m) < 32
    ensures Clz(m) == 31 - Pos(m)
    decreases 0xFFFFFFFF - m
  {
    PosTop(m);
    if m & 0x80000000 == 0 {
      PosShift(m);
      ClzOne(m << 1);
    }
  }

  /** `bcm_count_leading_zeros`, which finds an isolated bit. */
  method CountLeadingZeros(w: bv32) returns (n: nat)
    ensures n == Clz(w)
    ensures forall i: nat :: IsMask(w, i) ==> i < 32 && n == 31 - i
  {
    n := Clz(w);
    forall i: nat | IsMask(w, i) ensures i < 32 && n == 31 - i {
      MaskPos(w, i);
      ClzOne(w);
    }
  }

  // ---------------------------------------------------------------- the low bits

  lemma BelowStep(m: bv32)
    requires m != 0 && m & 1 == 0
    ensures (m - 1) & 1 == 1 && (m - 1) >> 1 == (m >> 1) - 1
  {
  }

  /** The word ~0 with the bits of ~0 << i flipped off is (1 << i) - 1. */
  lemma FlipHigh(m: bv32)
    ensures 0xFFFFFFFF ^ -m == m - 1
  {
  }

  lemma {:induction false} BelowMask(m: bv32, i: nat, j: nat)
    requires IsMask(m, i)
    ensures Bit(m - 1, j) <==> j < i
    decreases i
  {
    if i == 0 {
      NoBits(j);
    } else {
      BelowStep(m);
      if j > 0 {
        BelowMask(m >> 1, i - 1, j - 1);
      }
    }
  }

  lemma TopWord()
    ensures Mask(31) == 0x80000000
  {
    assert Mask(8) == 0x100;
    assert Mask(16) == 0x10000;
    assert Mask(24) == 0x1000000;
  }

  lemma SplitOnes()
    ensures (0x80000000 as bv32) - 1 | 0x80000000 == 0xFFFFFFFF
  {
  }

  lemma AllOnes(j: nat)
    requires j < 32
    ensures Bit(0xFFFFFFFF, j)
  {
    TopWord();
    MaskIsMask(31);
    SplitOnes();
    BelowMask(0x80000000, 31, j);
    BitOr((0x80000000 as bv32) - 1, 0x80000000, 31, j);
  }

  // ---------------------------------------------------------------- population counts

  function PopIn(w: bv32, n: nat): (c: nat)
    ensures c <= n
  {
    if n == 0 then 0 else PopIn(w, n - 1) + if Bit(w, n - 1) then 1 else 0
  }

  /** The number of bits set in a word (`bcm_cntsetbits`). */
  function Pop(w: bv32): nat {
    PopIn(w, 32)
  }

  lemma {:induction false} PopSame(v: bv32, w: bv32, n: nat)
    requires forall j :: 0 <= j < n ==> Bit(v, j) == Bit(w, j)
    ensures PopIn(v, n) == PopIn(w, n)
  {
    if n > 0 {
      PopSame(v, w, n - 1);
    }
  }

  /** Words that differ in bit i alone. */
  lemma {:induction false} PopDiffers(v: bv32, w: bv32, i: nat, n: nat)
    requires i < n && Bit(v, i) && !Bit(w, i)
    requires forall j :: 0 <= j < n && j != i ==> Bit(v, j) == Bit(w, j)
    ensures PopIn(v, n) == PopIn(w, n) + 1
  {
    if i == n - 1 {
      PopSame(v, w, n - 1);
    } else {
      PopDiffers(v, w, i, n - 1);
    }
  }

  lemma {:induction false} PopBelow(w: bv32, e: nat, n: nat)
    requires forall j :: 0 <= j < n ==> (Bit(w, j) <==> j < e)
    ensures PopIn(w, n) == if n < e then n else e
  {
    if n > 0 {
      PopBelow(w, e, n - 1);
    }
  }

  lemma {:induction false} PopSome(w: bv32, i: nat, n: nat)
    requires i < n && Bit(w, i)
    ensures PopIn(w, n) > 0
  {
    if i < n - 1 {
      PopSome(w, i, n - 1);
    }
  }

  lemma PopZero(w: bv32)
    ensures Pop(w) == 0 <==> w == 0
  {
    if w == 0 {
      forall j: nat ensures !Bit(0, j) {
        NoBits(j);
      }
      PopBelow(0, 0, 32);
    } else {
      LowestBit(w);
      MaskPos(w & -w, Lowest(w));
      PopSome(w, Lowest(w), 32);
    }
  }
}
