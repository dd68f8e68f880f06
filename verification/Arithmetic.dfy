/** What the arithmetic instructions compute, by opcode: laws that name none of their functions. */
module Arithmetic {
  import opened Words
  import opened Instructions
  import opened Machine
  import A = Alu

  /** The word is `x` modulo 2^256. */
  predicate Congruent(v: Word, x: int)
  {
    (x - v) % 0x1_0000000000000000_0000000000000000_0000000000000000_0000000000000000 == 0
  }

  lemma WrapCongruent(x: int)
    ensures Congruent(Wrap256(x), x)
  {
  }

  // ---- ADD, MUL, SUB, DIV, MOD, ADDMOD, MULMOD ----

  lemma SumLaws(s: seq<Word>)
    requires |s| >= 2
    ensures var a: nat, b: nat := s[0], s[1];
      Congruent(AluValue(0x01, s), a + b) && Congruent(AluValue(0x02, s), a * b) && Congruent(AluValue(0x03, s), a - b)
  {
    var a: nat, b: nat := s[0], s[1];
    WrapCongruent(a + b);
    WrapCongruent(a * b);
    WrapCongruent(a - b);
  }

  /** Quotient and remainder: zero for the divisor zero. */
  ghost predicate Divides(a: nat, b: nat, q: nat, r: nat)
  {
    if b == 0 then q == 0 && r == 0 else a == q * b + r && r < b
  }

  lemma QuotientLaws(s: seq<Word>)
    requires |s| >= 2
    ensures Divides(s[0], s[1], AluValue(0x04, s), AluValue(0x06, s))
  {
  }

  /** `r` is the remainder of `x`, which is not cut to 256 bits. */
  ghost predicate Remains(x: nat, m: nat, r: nat)
  {
    if m == 0 then r == 0 else r < m && exists q: nat {:trigger q * m} :: x == q * m + r
  }

  lemma RemainderRemains(x: nat, m: nat)
    requires m > 0
    ensures Remains(x, m, x % m)
  {
    var q := x / m;
    assert x == q * m + x % m;
  }

  lemma ModularLaws(s: seq<Word>)
    requires |s| >= 3
    ensures var a: nat, b: nat := s[0], s[1]; Remains(a + b, s[2], AluValue(0x08, s)) && Remains(a * b, s[2], AluValue(0x09, s))
  {
    var a: nat, b: nat, m: nat := s[0], s[1], s[2];
    if m > 0 {
      RemainderRemains(a + b, m);
      RemainderRemains(a * b, m);
    }
  }

  // ---- SDIV, SMOD, SAR, SIGNEXTEND ----

  lemma SignedBack(v: int)
    requires 0 - TWO_255 <= v < TWO_255
    ensures A.Signed(A.Unsigned(v)) == v
  {
  }

  /** Signed division: the remainder has the sign of the dividend. */
  ghost predicate SignedDivides(a: int, b: int, q: int, r: int)
  {
    if b == 0 then q == 0 && r == 0
    else a == q * b + r && -A.Abs(b) < r < A.Abs(b) && (r == 0 || (r < 0 <==> a < 0))
  }

  lemma TruncSign(a: int, b: int)
    requires b != 0
    ensures SignedDivides(a, b, A.TruncDiv(a, b), A.TruncMod(a, b))
  {
    A.TruncDivBound(a, b);
    A.Magnitude(A.Abs(a), A.Abs(b));
    A.NegMul(A.Abs(a) / A.Abs(b), A.Abs(b));
  }

  /** The one quotient that does not fit is the smallest word over -1. */
  lemma QuotientFits(a: int, b: int)
    requires 0 - TWO_255 <= a < TWO_255 && 0 - TWO_255 <= b < TWO_255 && b != 0 && !(a == 0 - TWO_255 && b == -1)
    ensures 0 - TWO_255 <= A.TruncDiv(a, b) < TWO_255 && 0 - TWO_255 <= A.TruncMod(a, b) < TWO_255
  {
    A.TruncDivBound(a, b);
    if a == 0 - TWO_255 && A.TruncDiv(a, b) == TWO_255 {
      LargeQuotient(a, b);
    }
  }

  lemma LargeQuotient(a: int, b: int)
    requires a == 0 - TWO_255 && b != 0 && A.TruncDiv(a, b) == TWO_255
    ensures b == -1
  {
    assert b < 0 && -a / -b == TWO_255;
  }

  lemma SignedLaws(s: seq<Word>)
    requires |s| >= 2
    ensures var a, b := A.Signed(s[0]), A.Signed(s[1]); var q, r := A.Signed(AluValue(0x05, s)), A.Signed(AluValue(0x07, s));
      if a == 0 - TWO_255 && b == -1 then q == a && r == 0 else SignedDivides(a, b, q, r)
  {
    var a, b := A.Signed(s[0]), A.Signed(s[1]);
    if a == 0 - TWO_255 && b == -1 {
      assert A.TruncDiv(a, b) == TWO_255 && A.TruncMod(a, b) == 0;
    } else if b != 0 {
      QuotientFits(a, b);
      TruncSign(a, b);
      SignedBack(A.TruncDiv(a, b));
      SignedBack(A.TruncMod(a, b));
    }
  }

  lemma FloorBounds(x: int, p: nat)
    requires p > 0 && 0 - TWO_255 <= x < TWO_255
    ensures x / p * p <= x < (x / p + 1) * p && 0 - TWO_255 <= x / p < TWO_255
  {
    var q := x / p;
    MulDistrib(q, 1, p);
    QuotientSmall(x, p);
    if q < 0 {
      MulMono(1, p, -q - 1);
      MulComm(p, -q - 1);
      A.NegMul(q + 1, p);
      A.NegMul(-q - 1, p);
    }
  }

  lemma QuotientSmall(x: int, p: nat)
    requires p > 0 && x < TWO_255
    ensures x / p < TWO_255
  {
    if x >= 0 { A.QuotientBound(x, p); }
  }

  /** SAR: the largest integer that times 2^shift does not exceed the signed word. */
  lemma ShiftRightLaw(s: seq<Word>)
    requires |s| >= 2
    ensures var v, p := A.Signed(AluValue(0x1d, s)), Pow2(s[0]); v * p <= A.Signed(s[1]) < (v + 1) * p
  {
    FloorBounds(A.Signed(s[1]), Pow2(s[0]));
    SignedBack(A.Signed(s[1]) / Pow2(s[0]));
  }

  /** SHL and SHR. */
  lemma ShiftLaws(s: seq<Word>)
    requires |s| >= 2
    ensures var x: nat, p := s[1], Pow2(s[0]);
      && (s[0] < 256 ==> Congruent(AluValue(0x1b, s), x * p) && AluValue(0x1c, s) * p <= x < (AluValue(0x1c, s) + 1) * p)
      && (s[0] >= 256 ==> AluValue(0x1b, s) == 0 && AluValue(0x1c, s) == 0)
  {
    var x: nat, p := s[1], Pow2(s[0]);
    WrapCongruent(x * p);
    var q := x / p;
    assert x == q * p + x % p;
    MulDistrib(q, 1, p);
  }

  // ---- Comparisons ----

  lemma CompareLaws(s: seq<Word>)
    requires |s| >= 2
    ensures AluValue(0x10, s) == (if s[0] < s[1] then 1 else 0) && AluValue(0x11, s) == (if s[0] > s[1] then 1 else 0)
    ensures AluValue(0x12, s) == (if A.Signed(s[0]) < A.Signed(s[1]) then 1 else 0)
    ensures AluValue(0x13, s) == (if A.Signed(s[0]) > A.Signed(s[1]) then 1 else 0)
    ensures AluValue(0x14, s) == (if s[0] == s[1] then 1 else 0) && AluValue(0x15, s) == (if s[0] == 0 then 1 else 0)
  {
  }

  // ---- AND, OR, XOR, NOT, bit by bit ----

  lemma BitStep(x: nat, n: nat)
    ensures A.BitTest(x, 0) <==> x % 2 == 1
    ensures A.BitTest(x, n + 1) <==> A.BitTest(x / 2, n)
  {
    assert Pow2(n + 1) == 2 * Pow2(n);
    A.DivDiv(x, 2, Pow2(n));
  }

  lemma AndHalves(a: nat, b: nat, r: nat)
    requires r == A.BitAnd(a, b)
    ensures r % 2 == (if a % 2 == 1 && b % 2 == 1 then 1 else 0) && r / 2 == A.BitAnd(a / 2, b / 2)
  {
  }

  lemma {:induction false} AndBit(a: nat, b: nat, n: nat)
    ensures A.BitTest(A.BitAnd(a, b), n) <==> A.BitTest(a, n) && A.BitTest(b, n)
    decreases n
  {
    var r := A.BitAnd(a, b);
    AndHalves(a, b, r);
    if n == 0 {
      BitStep(a, 0);
      BitStep(b, 0);
      BitStep(r, 0);
    } else {
      BitStep(a, n - 1);
      BitStep(b, n - 1);
      BitStep(r, n - 1);
      AndBit(a / 2, b / 2, n - 1);
    }
  }

  lemma OrHalves(a: nat, b: nat, r: nat)
    requires r == A.BitOr(a, b)
    ensures r % 2 == (if a % 2 == 1 || b % 2 == 1 then 1 else 0) && r / 2 == A.BitOr(a / 2, b / 2)
  {
  }

  lemma {:induction false} OrBit(a: nat, b: nat, n: nat)
    ensures A.BitTest(A.BitOr(a, b), n) <==> A.BitTest(a, n) || A.BitTest(b, n)
    decreases n
  {
    var r := A.BitOr(a, b);
    OrHalves(a, b, r);
    if n == 0 {
      BitStep(a, 0);
      BitStep(b, 0);
      BitStep(r, 0);
    } else {
      BitStep(a, n - 1);
      BitStep(b, n - 1);
      BitStep(r, n - 1);
      OrBit(a / 2, b / 2, n - 1);
    }
  }

  lemma XorHalves(a: nat, b: nat, r: nat)
    requires r == A.BitXor(a, b)
    ensures r % 2 == (if a % 2 != b % 2 then 1 else 0) && r / 2 == A.BitXor(a / 2, b / 2)
  {
  }

  lemma {:induction false} XorBit(a: nat, b: nat, n: nat)
    ensures A.BitTest(A.BitXor(a, b), n) <==> (A.BitTest(a, n) != A.BitTest(b, n))
    decreases n
  {
    var r := A.BitXor(a, b);
    XorHalves(a, b, r);
    if n == 0 {
      BitStep(a, 0);
      BitStep(b, 0);
      BitStep(r, 0);
    } else {
      BitStep(a, n - 1);
      BitStep(b, n - 1);
      BitStep(r, n - 1);
      XorBit(a / 2, b / 2, n - 1);
    }
  }

  lemma BitLaws(s: seq<Word>, n: nat)
    requires |s| >= 2
    ensures A.BitTest(AluValue(0x16, s), n) <==> A.BitTest(s[0], n) && A.BitTest(s[1], n)
    ensures A.BitTest(AluValue(0x17, s), n) <==> A.BitTest(s[0], n) || A.BitTest(s[1], n)
    ensures A.BitTest(AluValue(0x18, s), n) <==> (A.BitTest(s[0], n) != A.BitTest(s[1], n))
    ensures AluValue(0x19, s) + s[0] == TWO_256 - 1
  {
    AndBit(s[0], s[1], n);
    OrBit(s[0], s[1], n);
    XorBit(s[0], s[1], n);
  }

  // ---- BYTE, SIGNEXTEND, EXP ----

  /** SIGNEXTEND: the signed value has the width of the chosen bytes and their value modulo it. */
  lemma ExtensionLaw(s: seq<Word>)
    requires |s| >= 2 && s[0] < 31
    ensures var v, p := A.Signed(AluValue(0x0b, s)), Pow2(8 * s[0] + 8);
      p == 2 * Pow2(8 * s[0] + 7) && 0 - Pow2(8 * s[0] + 7) <= v < Pow2(8 * s[0] + 7) && (v == s[1] % p || v + p == s[1] % p)
  {
    var k: nat := s[0];
    var bits := 8 * k + 8;
    assert Pow2(bits) == 2 * Pow2(bits - 1);
    Pow2Mono(bits - 1, 255);
    assert Pow2(255) == TWO_255 by { Pow2Values(); }
    SignedBack(A.SignedPrefix(s[1], bits));
  }

  /** BYTE counts from the most significant byte; EXP is the power modulo 2^256; from byte 31 on
      SIGNEXTEND changes nothing. */
  lemma OtherLaws(s: seq<Word>)
    requires |s| >= 2
    ensures AluValue(0x1a, s) == (if s[0] < 32 then ToBE(s[1], WORD_BYTES)[s[0]] else 0)
    ensures Congruent(AluValue(0x0a, s), A.Pow(s[0], s[1]))
    ensures s[0] >= 31 ==> AluValue(0x0b, s) == s[1]
  {
    WrapCongruent(A.Pow(s[0], s[1]));
    A.SignExtendCorrect(s[0], s[1]);
  }
}
