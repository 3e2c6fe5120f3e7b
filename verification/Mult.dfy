/**
 * The multiplier of the MIPS simulator (machine/mipssim.cc): a 64-bit product
 * in two 32-bit halves, by shifting and adding. All arithmetic is on 32-bit
 * words; wrap-around, the carry and the sign-extending shift are explicit.
 */
module Multiplier {
  import opened Bytes

  const WORD := 0x1_0000_0000

  /** The number that two halves stand for. */
  function Double(hi: uint32, lo: uint32): (n: nat) { hi * WORD + lo }

  function Wrap(n: nat): (u: uint32) { n % WORD }

  function Pow2(n: nat): (p: nat)
    ensures p > 0
  {
    if n == 0 then 1 else 2 * Pow2(n - 1)
  }

  lemma Pow2Word()
    ensures Pow2(32) == WORD
  {
    assert Pow2(8) == 256;
    assert Pow2(16) == 0x1_0000;
    assert Pow2(24) == 0x100_0000;
  }

  /**
   * The multiplier `x` with its low bits split off: `p` is their weight, `low`
   * their value, `rem` the bits above, and `q` bounds `rem`.
   */
  datatype Split = Split(p: nat, q: nat, rem: nat, low: nat)

  ghost predicate SplitOk(x: uint32, s: Split) {
    s.p * s.q == WORD && x == s.rem * s.p + s.low && s.low < s.p && s.rem < s.q
  }

  function NextSplit(s: Split): (n: Split) {
    Split(2 * s.p, s.q / 2, s.rem / 2, s.low + s.rem % 2 * s.p)
  }

  /**
   * What the loop knows: `a` holds the multiplier's remaining bits, filled with
   * ones from the top if it started negative; the two pairs hold the product
   * with its low bits and the shifted multiplicand.
   */
  ghost predicate Progress(x: uint32, y: uint32, s: Split, a: int32, hi: uint32, lo: uint32, bHi: uint32, bLo: uint32) {
    && SplitOk(x, s)
    && a == s.rem - (if x < 0x8000_0000 then 0 else s.q)
    && Double(hi, lo) == s.low * y
    && Double(bHi, bLo) == y * s.p
  }

  /** The high half of a sum: the carry, seen as a wrapped low half, comes first. */
  function SumHi(hi: uint32, lo: uint32, bHi: uint32, bLo: uint32): (h: uint32) {
    Wrap(Wrap(hi + if Wrap(lo + bLo) < bLo then 1 else 0) + bHi)
  }

  /** The addition with its carry test is exact while the sum fits in 64 bits. */
  lemma AddExact(hi: uint32, lo: uint32, bHi: uint32, bLo: uint32)
    requires Double(hi, lo) + Double(bHi, bLo) < WORD * WORD
    ensures Double(SumHi(hi, lo, bHi, bLo), Wrap(lo + bLo)) == Double(hi, lo) + Double(bHi, bLo)
  {
  }

  /** The high half of a shift: the low half's top bit moves into the bit made free. */
  function ShiftHi(bHi: uint32, bLo: uint32): (h: uint32) {
    Wrap(2 * bHi) + if bLo >= 0x8000_0000 then 1 else 0
  }

  /** The double-word shift is exact while the result fits in 64 bits. */
  lemma ShiftExact(bHi: uint32, bLo: uint32)
    requires 2 * Double(bHi, bLo) < WORD * WORD
    ensures Double(ShiftHi(bHi, bLo), Wrap(2 * bLo)) == 2 * Double(bHi, bLo)
  {
  }

  /** The halves of a negated pair: complement both, add one, carry into the high half. */
  function NegLo(lo: uint32): (l: uint32) { Wrap(WORD - 1 - lo + 1) }

  function NegHi(hi: uint32, lo: uint32): (h: uint32) {
    Wrap(WORD - 1 - hi + if NegLo(lo) == 0 then 1 else 0)
  }

  /** Complementing both halves and adding one negates modulo 2^64. */
  lemma NegateExact(hi: uint32, lo: uint32)
    ensures Double(NegHi(hi, lo), NegLo(lo)) == if Double(hi, lo) == 0 then 0 else WORD * WORD - Double(hi, lo)
  {
  }

  lemma MulLe(a: nat, b: nat, c: nat)
    requires a <= b
    ensures a * c <= b * c
  {
  }

  /** Splitting off one more low bit. */
  lemma NextSplitOk(x: uint32, s: Split)
    requires SplitOk(x, s) && s.q % 2 == 0
    ensures SplitOk(x, NextSplit(s)) && 2 * s.p <= WORD
  {
    var m, bit, half := s.rem / 2, s.rem % 2, s.q / 2;
    assert s.p * (2 * half) == (2 * s.p) * half;
    assert (2 * m + bit) * s.p == m * (2 * s.p) + bit * s.p;
    assert half >= 1;
    MulLe(1, half, 2 * s.p);
  }

  /** The bit under test and the early exit see the multiplier's own bits. */
  lemma TestsSeeBits(x: uint32, s: Split, a: int32)
    requires SplitOk(x, s) && s.q % 2 == 0 && a == s.rem - (if x < 0x8000_0000 then 0 else s.q)
    ensures a % 2 == s.rem % 2
    ensures a == 1 ==> s.rem == 1
    ensures a / 2 == s.rem / 2 - (if x < 0x8000_0000 then 0 else s.q / 2)
  {
  }

  /** Adding the shifted multiplicand for a one bit keeps the partial product exact. */
  lemma PartialProduct(x: uint32, y: uint32, s: Split)
    requires SplitOk(x, s) && s.q % 2 == 0
    ensures s.low * y + y * s.p < WORD * WORD
    ensures 2 * (y * s.p) == y * NextSplit(s).p && 2 * (y * s.p) < WORD * WORD
    ensures NextSplit(s).low * y == s.low * y + (if s.rem % 2 == 1 then y * s.p else 0)
  {
    NextSplitOk(x, s);
    assert (s.low + s.p) * y == s.low * y + y * s.p;
    MulLe(s.low + s.p, WORD, y);
    MulLe(2 * s.p, WORD, y);
  }

  /** One pass of the loop, with the two cases of the bit under test. */
  lemma PassKeeps(x: uint32, y: uint32, s: Split, a: int32, hi: uint32, lo: uint32, bHi: uint32, bLo: uint32)
    requires Progress(x, y, s, a, hi, lo, bHi, bLo) && s.q % 2 == 0
    ensures if a % 2 == 0 then
              Progress(x, y, NextSplit(s), a / 2, hi, lo, ShiftHi(bHi, bLo), Wrap(2 * bLo))
            else
              Progress(x, y, NextSplit(s), a / 2, SumHi(hi, lo, bHi, bLo), Wrap(lo + bLo),
                       ShiftHi(bHi, bLo), Wrap(2 * bLo))
    ensures a == 1 ==> Double(SumHi(hi, lo, bHi, bLo), Wrap(lo + bLo)) == x * y
  {
    hide Double, SplitOk, SumHi, ShiftHi, Wrap;
    TestsSeeBits(x, s, a);
    PartialProduct(x, y, s);
    NextSplitOk(x, s);
    AddExact(hi, lo, bHi, bLo);
    ShiftExact(bHi, bLo);
    if a == 1 {
      LastBit(x, y, s);
    }
  }

  lemma LastBit(x: uint32, y: uint32, s: Split)
    requires SplitOk(x, s) && s.rem == 1
    ensures s.low * y + y * s.p == x * y
  {
    assert x == s.p + s.low;
  }

  /** The pair plus another pair, with the carry test of the low halves. */
  method AddPair(hiIn: uint32, loIn: uint32, bHi: uint32, bLo: uint32) returns (hi: uint32, lo: uint32)
    ensures hi == SumHi(hiIn, loIn, bHi, bLo) && lo == Wrap(loIn + bLo)
    ensures Double(hiIn, loIn) + Double(bHi, bLo) < WORD * WORD
            ==> Double(hi, lo) == Double(hiIn, loIn) + Double(bHi, bLo)
  {
    hide Double;
    if Double(hiIn, loIn) + Double(bHi, bLo) < WORD * WORD {
      AddExact(hiIn, loIn, bHi, bLo);
    }
    hi, lo := hiIn, loIn;
    lo := Wrap(lo + bLo);
    if lo < bLo {
      hi := Wrap(hi + 1);
    }
    hi := Wrap(hi + bHi);
  }

  /** The pair shifted left by one bit. */
  method ShiftPair(hiIn: uint32, loIn: uint32) returns (bHi: uint32, bLo: uint32)
    ensures bHi == ShiftHi(hiIn, loIn) && bLo == Wrap(2 * loIn)
    ensures 2 * Double(hiIn, loIn) < WORD * WORD ==> Double(bHi, bLo) == 2 * Double(hiIn, loIn)
  {
    hide Double;
    if 2 * Double(hiIn, loIn) < WORD * WORD {
      ShiftExact(hiIn, loIn);
    }
    bHi, bLo := hiIn, loIn;
    bHi := Wrap(2 * bHi);
    if bLo >= 0x8000_0000 {
      bHi := bHi + 1;
    }
    bLo := Wrap(2 * bLo);
  }

  /** The loop: an unsigned product, bit by bit. */
  method MultLoop(first: int32, b: int32) returns (hi: uint32, lo: uint32)
    ensures Double(hi, lo) == Unsigned(first) * Unsigned(b)
  {
    hide Double, Progress, SumHi, ShiftHi, Wrap;
    var a: int32 := first;
    var bLo: uint32, bHi: uint32 := Unsigned(b), 0;
    lo, hi := 0, 0;
    ghost var x, y := Unsigned(first), Unsigned(b);
    ghost var s := Split(1, WORD, x, 0);
    LoopStarts(x, y, first);
    var i := 0;
    while i < 32
      invariant 0 <= i <= 32 && s.q == Pow2(32 - i)
      invariant Progress(x, y, s, a, hi, lo, bHi, bLo)
    {
      PassKeeps(x, y, s, a, hi, lo, bHi, bLo);
      if a % 2 == 1 {
        hi, lo := AddPair(hi, lo, bHi, bLo);
        if Unsigned(a) / 2 * 2 == 0 {
          return;
        }
      }
      bHi, bLo := ShiftPair(bHi, bLo);
      a := a / 2;
      s := NextSplit(s);
      i := i + 1;
    }
    LoopEnds(x, y, s, a, hi, lo, bHi, bLo);
  }

  lemma LoopStarts(x: uint32, y: uint32, a: int32)
    requires x == Unsigned(a)
    ensures Progress(x, y, Split(1, WORD, x, 0), a, 0, 0, 0, y) && Pow2(32) == WORD
  {
    Pow2Word();
  }

  lemma LoopEnds(x: uint32, y: uint32, s: Split, a: int32, hi: uint32, lo: uint32, bHi: uint32, bLo: uint32)
    requires Progress(x, y, s, a, hi, lo, bHi, bLo) && s.q == 1
    ensures Double(hi, lo) == x * y
  {
    assert s.low == x;
  }

  /** A 64-bit pattern read as two's complement. */
  function SignedDouble(hi: int32, lo: int32): (n: int) { hi * WORD + Unsigned(lo) }

  lemma SignRules(m: int, n: int)
    ensures (-m) * n == -(m * n) && m * (-n) == -(m * n) && (-m) * (-n) == m * n
  {
  }

  /** The smallest integer negates to itself, whose bits stand for its magnitude. */
  lemma NegatedIsMagnitude(a: int32)
    ensures Unsigned(if a < 0 then Wrap32(-(a as int)) else a) == Magnitude(a)
  {
  }

  lemma SignOfProduct(a: int, b: int)
    ensures a * b == if (a < 0) != (b < 0) then -(Magnitude(a) * Magnitude(b)) else Magnitude(a) * Magnitude(b)
  {
    SignRules(Magnitude(a), Magnitude(b));
  }

  lemma ProductFits(m: nat, n: nat)
    requires m <= 0x8000_0000 && n <= 0x8000_0000
    ensures 0 <= m * n <= 0x8000_0000 * 0x8000_0000
    ensures m > 0 && n > 0 ==> m * n > 0
  {
    MulLe(m, 0x8000_0000, n);
    if m > 0 {
      MulLe(1, m, n);
    }
  }

  lemma SignedHalves(hi: uint32, lo: uint32)
    ensures SignedDouble(Signed(hi), Signed(lo))
         == Double(hi, lo) - if hi < 0x8000_0000 then 0 else WORD * WORD
    ensures Unsigned(Signed(hi)) == hi && Unsigned(Signed(lo)) == lo
    ensures hi < 0x8000_0000 <==> Double(hi, lo) < WORD * WORD / 2
  {
  }

  /** Negating the product of the magnitudes when the signs differ gives the product. */
  lemma SignedProduct(a: int32, b: int32, hi: uint32, lo: uint32)
    requires a != 0 && b != 0 && Double(hi, lo) == Magnitude(a) * Magnitude(b)
    ensures if (a < 0) != (b < 0) then
              SignedDouble(Signed(NegHi(hi, lo)), Signed(NegLo(lo))) == a * b
            else
              SignedDouble(Signed(hi), Signed(lo)) == a * b
  {
    hide Double, SignedDouble, NegHi, NegLo, Signed, Unsigned;
    SignOfProduct(a, b);
    ProductFits(Magnitude(a), Magnitude(b));
    NegateExact(hi, lo);
    SignedHalves(hi, lo);
    SignedHalves(NegHi(hi, lo), NegLo(lo));
  }

  /**
   * MULT and MULTU: `hi` and `lo` hold the exact 64-bit product, of the
   * operands as two's complement numbers or as unsigned ones, the smallest
   * integer included.
   */
  method Mult(first: int32, second: int32, signedArith: bool) returns (hiOut: int32, loOut: int32)
    ensures signedArith ==> SignedDouble(hiOut, loOut) == first * second
    ensures !signedArith ==> Double(Unsigned(hiOut), Unsigned(loOut)) == Unsigned(first) * Unsigned(second)
  {
    hide Double, SignedDouble, NegHi, NegLo, Signed, Unsigned, Wrap32, Magnitude;
    var a: int32, b: int32 := first, second;
    if a == 0 || b == 0 {
      ZeroProduct();
      return 0, 0;
    }
    var negative := false;
    if signedArith {
      NegatedIsMagnitude(first);
      NegatedIsMagnitude(second);
      if a < 0 {
        negative := !negative;
        a := Wrap32(-(a as int));
      }
      if b < 0 {
        negative := !negative;
        b := Wrap32(-(b as int));
      }
    }
    var hi, lo := MultLoop(a, b);
    if signedArith {
      SignedProduct(first, second, hi, lo);
    }
    SignedHalves(hi, lo);
    if negative {
      hi, lo := Negate(hi, lo);
    }
    hiOut, loOut := Signed(hi), Signed(lo);
  }

  lemma ZeroProduct()
    ensures SignedDouble(0, 0) == 0 && Double(Unsigned(0), Unsigned(0)) == 0 && Unsigned(0) == 0
  {
  }

  /** Two's complement of the double word, in place. */
  method Negate(hiIn: uint32, loIn: uint32) returns (hi: uint32, lo: uint32)
    ensures hi == NegHi(hiIn, loIn) && lo == NegLo(loIn)
    ensures Double(hi, lo) == if Double(hiIn, loIn) == 0 then 0 else WORD * WORD - Double(hiIn, loIn)
  {
    NegateExact(hiIn, loIn);
    hi, lo := WORD - 1 - hiIn, WORD - 1 - loIn;
    lo := Wrap(lo + 1);
    if lo == 0 {
      hi := Wrap(hi + 1);
    }
  }
}
