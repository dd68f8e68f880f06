/** The arithmetic, comparison and bit instructions of `VM::interpretCases`, as coded: with sign
    masks, 512-bit detours and shifts.  Beside each signed instruction stands its two's-complement
    definition (Yellow Paper appendix H.2, EIP-145), and a lemma that the two agree on all words.
 */
module Alu {
  import opened Words

  // ---- Bitwise operations on naturals ----

  function BitAnd(a: nat, b: nat): (r: nat)
    decreases a
  {
    if a == 0 then 0 else 2 * BitAnd(a / 2, b / 2) + (if a % 2 == 1 && b % 2 == 1 then 1 else 0)
  }

  function BitOr(a: nat, b: nat): (r: nat)
    decreases a + b
  {
    if a == 0 && b == 0 then 0
    else 2 * BitOr(a / 2, b / 2) + (if a % 2 == 1 || b % 2 == 1 then 1 else 0)
  }

  function BitXor(a: nat, b: nat): (r: nat)
    decreases a + b
  {
    if a == 0 && b == 0 then 0
    else 2 * BitXor(a / 2, b / 2) + (if a % 2 != b % 2 then 1 else 0)
  }

  predicate BitTest(x: nat, n: nat)
  {
    x / Pow2(n) % 2 == 1
  }

  lemma {:induction false} BitOpsBound(a: nat, b: nat, n: nat)
    requires a < Pow2(n) && b < Pow2(n)
    ensures BitAnd(a, b) < Pow2(n) && BitOr(a, b) < Pow2(n) && BitXor(a, b) < Pow2(n)
    decreases n
  {
    if n > 0 {
      BitOpsBound(a / 2, b / 2, n - 1);
    }
  }

  /** The low `t` bits of `x`, one at a time. */
  function Low(x: nat, t: nat): (r: nat)
    decreases t
  {
    if t == 0 then 0 else 2 * Low(x / 2, t - 1) + x % 2
  }

  lemma {:induction false} LowIsMod(x: nat, t: nat)
    ensures Low(x, t) == x % Pow2(t)
    decreases t
  {
    if t > 0 {
      LowIsMod(x / 2, t - 1);
      HalveMod(x, Pow2(t - 1));
    }
  }

  lemma HalveMod(x: nat, p: nat)
    requires p > 0
    ensures x % (2 * p) == 2 * (x / 2 % p) + x % 2
  {
    var h := x / 2;
    MulAssoc(h / p, 2, p);
    MulAssoc(2, h / p, p);
    DivModUnique(x, 2 * p, h / p, 2 * (h % p) + x % 2);
  }

  /** Masking with `2^t - 1` keeps the low `t` bits. */
  lemma {:induction false} AndLowMask(x: nat, t: nat)
    ensures BitAnd(x, Pow2(t) - 1) == Low(x, t)
    decreases t
  {
    if t > 0 {
      AndLowMask(x / 2, t - 1);
      assert (Pow2(t) - 1) / 2 == Pow2(t - 1) - 1;
    } else {
      AndZero(x);
    }
  }

  lemma {:induction false} AndZero(x: nat)
    ensures BitAnd(x, 0) == 0
  {
    if x > 0 { AndZero(x / 2); }
  }

  lemma BitOrUnfold(a: nat, b: nat, i: nat, j: nat)
    requires i < 2 && j < 2
    ensures BitOr(2 * a + i, 2 * b + j) == 2 * BitOr(a, b) + (if i == 1 || j == 1 then 1 else 0)
  {
  }

  lemma {:induction false} OrAllOnes(x: nat, n: nat)
    requires x < Pow2(n)
    ensures BitOr(x, Pow2(n) - 1) == Pow2(n) - 1
    decreases n
  {
    if n > 0 {
      var p := Pow2(n - 1);
      OrAllOnes(x / 2, n - 1);
      BitOrUnfold(x / 2, p - 1, x % 2, 1);
    }
  }

  /** Setting every bit from `t` up to `n` replaces the high bits and keeps the low ones. */
  lemma {:induction false} OrHighMask(x: nat, t: nat, n: nat)
    requires t <= n && x < Pow2(n)
    ensures Pow2(t) <= Pow2(n)
    ensures BitOr(x, Pow2(n) - Pow2(t)) == Low(x, t) + Pow2(n) - Pow2(t)
    decreases n
  {
    Pow2Mono(t, n);
    if t == 0 {
      OrAllOnes(x, n);
    } else {
      OrHighMask(x / 2, t - 1, n - 1);
      BitOrUnfold(x / 2, Pow2(n - 1) - Pow2(t - 1), x % 2, 0);
    }
  }

  // ---- Unsigned arithmetic; division by zero gives zero ----

  function Add(a: int, b: int): (r: Word)
  {
    Wrap256(a + b)
  }

  function Mul(a: int, b: int): (r: Word)
  {
    Wrap256(a * b)
  }

  function Sub(a: int, b: int): (r: Word)
  {
    Wrap256(a - b)
  }

  function Div(a: Word, b: Word): (r: Word)
  {
    if b == 0 then 0 else
      QuotientBound(a, b);
      a / b
  }

  function Mod(a: Word, b: Word): (r: Word)
  {
    if b == 0 then 0 else a % b
  }

  // ADDMOD and MULMOD work on 512 bits, so the sum and the product are exact.
  function AddMod(a: nat, b: nat, m: Word): (r: Word)
  {
    if m == 0 then 0 else (a + b) % m
  }

  function MulMod(a: nat, b: nat, m: Word): (r: Word)
  {
    if m == 0 then 0 else a * b % m
  }

  // ---- Two's complement ----

  /** The integer a word denotes when read as signed. */
  function Signed(w: Word): (v: int)
    ensures 0 - TWO_255 <= v < TWO_255
  {
    if w < TWO_255 then w else w - TWO_256
  }

  /** The word that denotes `v`, modulo 2^256. */
  function Unsigned(v: int): (w: Word)
  {
    Wrap256(v)
  }

  /** C++ division: the quotient is cut towards zero and the remainder has the dividend's sign. */
  function TruncDiv(a: int, b: int): (q: int)
    requires b != 0
  {
    if a >= 0 then (if b > 0 then a / b else -(a / -b))
    else (if b > 0 then -(-a / b) else -a / -b)
  }

  function TruncMod(a: int, b: int): (r: int)
    requires b != 0
  {
    a - TruncDiv(a, b) * b
  }

  // What SDIV, SMOD, SLT and SGT are to compute.

  /** Signed division, cut towards zero. */
  function SignedQuotient(a: Word, b: Word): (r: Word)
  {
    if Signed(b) == 0 then 0 else Unsigned(TruncDiv(Signed(a), Signed(b)))
  }

  function SignedRemainder(a: Word, b: Word): (r: Word)
  {
    if Signed(b) == 0 then 0 else Unsigned(TruncMod(Signed(a), Signed(b)))
  }

  predicate SignedLess(a: Word, b: Word)
  {
    Signed(a) < Signed(b)
  }

  // `u2s` and `s2u` of libdevcore/Common.h: sign and magnitude on either side.
  function U2S(u: Word): (s: int)
  {
    if BitTest(u, 255) then -(TWO_256 - u) else u
  }

  function S2U(s: int): (u: Word)
  {
    if s >= 0 then Wrap256(s) else Wrap256(TWO_256 + s)
  }

  /** Conversion into a 256-bit sign-and-magnitude integer: the magnitude is cut to 256 bits. */
  function ToS256(v: int): (s: int)
  {
    if v >= 0 then Wrap256(v) else 0 - Wrap256(-v)
  }

  function SDiv(a: Word, b: Word): (r: Word)
  {
    if b == 0 then 0 else
      U2SNonZero(b);
      S2U(ToS256(TruncDiv(U2S(a), U2S(b))))
  }

  function SMod(a: Word, b: Word): (r: Word)
  {
    if b == 0 then 0 else
      U2SNonZero(b);
      S2U(ToS256(TruncMod(U2S(a), U2S(b))))
  }

  lemma TopBit(u: Word)
    ensures BitTest(u, 255) <==> u >= TWO_255
    ensures u / TWO_255 != 0 <==> u >= TWO_255
  {
    Pow2Values();
    if u >= TWO_255 {
      DivModUnique(u, TWO_255, 1, u - TWO_255);
    } else {
      DivModUnique(u, TWO_255, 0, u);
    }
  }

  lemma U2SIsSigned(u: Word)
    ensures U2S(u) == Signed(u)
  {
    TopBit(u);
  }

  lemma U2SNonZero(u: Word)
    requires u != 0
    ensures U2S(u) != 0
  {
    U2SIsSigned(u);
  }

  function Abs(a: int): (r: int)
    ensures r >= 0
  {
    if a >= 0 then a else -a
  }

  lemma TruncDivBound(a: int, b: int)
    requires b != 0
    ensures -Abs(a) <= TruncDiv(a, b) <= Abs(a)
    ensures -Abs(b) < TruncMod(a, b) < Abs(b)
  {
    var x, y := Abs(a), Abs(b);
    Magnitude(x, y);
    NegMul(x / y, y);
    NegMul(-a / y, y);
    NegMul(a / y, y);
  }

  lemma Magnitude(x: int, y: int)
    requires x >= 0 && y > 0
    ensures 0 <= x / y <= x
    ensures 0 <= x - x / y * y < y
  {
    QuotientBound(x, y);
  }

  lemma NegMul(q: int, y: int)
    ensures (-q) * y == -(q * y) == q * (-y)
    ensures (-q) * (-y) == q * y
  {
  }

  /** Leaving 512-bit arithmetic loses nothing: the quotient fits in a 256-bit magnitude. */
  lemma FromS512(v: int)
    requires 0 - TWO_255 <= v <= TWO_255
    ensures S2U(ToS256(v)) == Unsigned(v)
  {
  }

  /** SDIV is division towards zero of the signed readings, `-2^255 / -1` included. */
  lemma SDivCorrect(a: Word, b: Word)
    ensures SDiv(a, b) == SignedQuotient(a, b)
  {
    U2SIsSigned(a);
    U2SIsSigned(b);
    if b != 0 {
      var q := TruncDiv(Signed(a), Signed(b));
      assert 0 - TWO_255 <= q <= TWO_255 by { TruncDivBound(Signed(a), Signed(b)); }
      FromS512(q);
    }
  }

  /** SMOD is the matching remainder: it takes the sign of the dividend. */
  lemma SModCorrect(a: Word, b: Word)
    ensures SMod(a, b) == SignedRemainder(a, b)
  {
    U2SIsSigned(a);
    U2SIsSigned(b);
    if b != 0 {
      var r := TruncMod(Signed(a), Signed(b));
      assert 0 - TWO_255 <= r <= TWO_255 by { TruncDivBound(Signed(a), Signed(b)); }
      FromS512(r);
    }
  }

  function Slt(a: Word, b: Word): (r: Word)
  {
    var lhsNeg, rhsNeg := a / TWO_255 != 0, b / TWO_255 != 0;
    if lhsNeg != rhsNeg then (if lhsNeg then 1 else 0) else if a < b then 1 else 0
  }

  function Sgt(a: Word, b: Word): (r: Word)
  {
    var lhsNeg, rhsNeg := a / TWO_255 != 0, b / TWO_255 != 0;
    if lhsNeg != rhsNeg then (if rhsNeg then 1 else 0) else if a > b then 1 else 0
  }

  /** SLT and SGT compare the signed readings. */
  lemma SignedCompareCorrect(a: Word, b: Word)
    ensures Slt(a, b) == if SignedLess(a, b) then 1 else 0
    ensures Sgt(a, b) == if SignedLess(b, a) then 1 else 0
  {
    TopBit(a);
    TopBit(b);
  }

  // ---- Shifts (EIP-145) ----

  function Shl(shift: Word, x: Word): (r: Word)
  {
    if shift >= 256 then 0 else Wrap256(x * Pow2(shift))
  }

  function Shr(shift: Word, x: Word): (r: Word)
  {
    if shift >= 256 then 0
    else
      QuotientBound(x, Pow2(shift));
      x / Pow2(shift)
  }

  /** SAR as coded: a logical shift, then the vacated bits filled by an OR with `~0 << (256 - n)`. */
  function Sar(shift: Word, x: Word): (r: Word)
  {
    var hibit := BitTest(x, 255);
    if shift >= 256 then (if hibit then TWO_256 - 1 else 0)
    else
      QuotientBound(x, Pow2(shift));
      if hibit then FillFrom(x / Pow2(shift), 256 - shift) else x / Pow2(shift)
  }

  /** `q | (~0 << t)` on 256-bit words. */
  function FillFrom(q: Word, t: nat): (r: Word)
  {
    var fill := Wrap256((TWO_256 - 1) * Pow2(t));
    Pow2Values();
    BitOpsBound(q, fill, 256);
    BitOr(q, fill)
  }

  lemma QuotientBound(x: nat, d: nat)
    requires d > 0
    ensures 0 <= x / d <= x
  {
    MulGap(d, x / d);
    MulComm(d, x / d);
  }

  /** The fill is the block of ones above bit `256 - n`. */
  lemma FillMask(shift: nat)
    requires shift <= 256
    ensures Pow2(256 - shift) <= TWO_256
    ensures (TWO_256 - 1) * Pow2(256 - shift) % TWO_256 == (TWO_256 - Pow2(256 - shift)) % TWO_256
  {
    var p := Pow2(256 - shift);
    Pow2Split(256 - shift);
    MulDistrib(TWO_256, 1, p);
    MulDistrib(p, 1, TWO_256);
    MulComm(p, TWO_256);
    if p < TWO_256 {
      DivModUnique((TWO_256 - 1) * p, TWO_256, p - 1, TWO_256 - p);
    } else {
      DivModUnique((TWO_256 - 1) * p, TWO_256, p - 1, 0);
    }
  }

  lemma ShiftedBound(x: Word, shift: nat)
    requires shift <= 256
    ensures x / Pow2(shift) < Pow2(256 - shift)
    ensures Pow2(shift) * Pow2(256 - shift) == TWO_256
  {
    Pow2Split(shift);
    var d, q := Pow2(shift), x / Pow2(shift);
    MulComm(Pow2(256 - shift), d);
    if q >= Pow2(256 - shift) {
      MulMono(Pow2(256 - shift), q, d);
    }
  }

  /** Signed division by a power of two, cut towards minus infinity. */
  function ArithmeticShift(shift: Word, x: Word): (r: Word)
  {
    Unsigned(Signed(x) / Pow2(shift))
  }

  /** SAR divides the signed reading by `2^shift`, rounding towards minus infinity,
      for every shift amount including 0 and those of 256 or more. */
  lemma SarCorrect(shift: Word, x: Word)
    ensures Sar(shift, x) == ArithmeticShift(shift, x)
  {
    TopBit(x);
    var d := Pow2(shift);
    if shift >= 256 {
      Pow2Values();
      Pow2Mono(256, shift);
      if x >= TWO_255 {
        DivModUnique(Signed(x), d, -1, d + Signed(x));
      } else {
        DivModUnique(Signed(x), d, 0, x);
      }
    } else {
      QuotientBound(x, d);
      if x >= TWO_255 {
        SarNegative(shift, x);
      } else {
        DivModUnique(x / d, TWO_256, 0, x / d);
      }
    }
  }

  /** The signed quotient of a word with its top bit set. */
  lemma NegativeQuotient(shift: nat, x: Word)
    requires shift <= 256 && x >= TWO_255
    ensures Signed(x) / Pow2(shift) == x / Pow2(shift) - Pow2(256 - shift)
  {
    ShiftedBound(x, shift);
    LowerQuotient(x, Pow2(shift), Pow2(256 - shift), TWO_256);
  }

  lemma LowerQuotient(x: nat, d: nat, p: nat, w: nat)
    requires d > 0 && d * p == w
    ensures (x - w) / d == x / d - p
  {
    var q := x / d;
    MulDistrib(q, p, d);
    MulComm(p, d);
    DivModUnique(x - w, d, q - p, x % d);
  }

  lemma SarNegative(shift: nat, x: Word)
    requires shift < 256 && x >= TWO_255
    ensures Sar(shift, x) == ArithmeticShift(shift, x)
  {
    assert BitTest(x, 255) by { TopBit(x); }
    ShiftedBound(x, shift);
    QuotientBound(x, Pow2(shift));
    NegativeQuotient(shift, x);
    FillFromCorrect(x / Pow2(shift), 256 - shift);
  }

  lemma FillFromCorrect(q: Word, t: nat)
    requires t <= 256 && q < Pow2(t)
    ensures FillFrom(q, t) == Unsigned(q - Pow2(t))
  {
    var p := Pow2(t);
    Pow2Split(t);
    FillValue(t);
    FilledValue(q, t);
    WrapNegative(q - p);
    WrapSmall(q);
  }

  lemma FillValue(t: nat)
    requires t <= 256
    ensures Pow2(t) <= TWO_256
    ensures Wrap256((TWO_256 - 1) * Pow2(t)) == if Pow2(t) == TWO_256 then 0 else TWO_256 - Pow2(t)
  {
    FillMask(256 - t);
    WrapSmall(TWO_256 - Pow2(t));
  }

  lemma FilledValue(q: Word, t: nat)
    requires t <= 256 && q < Pow2(t)
    ensures Pow2(t) <= TWO_256
    ensures BitOr(q, if Pow2(t) == TWO_256 then 0 else TWO_256 - Pow2(t)) == q + TWO_256 - Pow2(t)
  {
    OrHighMask256(q, t);
    DivModUnique(q, Pow2(t), 0, q);
  }

  lemma WrapSmall(v: nat)
    ensures v < TWO_256 ==> Wrap256(v) == v
    ensures v == TWO_256 ==> Wrap256(v) == 0
  {
  }

  lemma WrapNegative(v: int)
    requires 0 - TWO_256 <= v < 0
    ensures Unsigned(v) == v + TWO_256
  {
  }

  lemma OrHighMask256(x: Word, t: nat)
    requires t <= 256
    ensures Pow2(t) <= TWO_256
    ensures BitOr(x, TWO_256 - Pow2(t)) == x % Pow2(t) + TWO_256 - Pow2(t)
  {
    Pow2Values();
    OrHighMask(x, t, 256);
    LowIsMod(x, t);
  }

  // ---- SIGNEXTEND ----

  /** As coded: test the sign bit, then OR or AND with a mask of the bits above or below it. */
  function SignExtend(k: Word, number: Word): (r: Word)
  {
    if k < 31 then
      var testBit := k * 8 + 7;
      if BitTest(number, testBit) then SetFrom(number, testBit) else KeepBelow(number, testBit)
    else number
  }

  /** `number | ~((1 << t) - 1)`. */
  function SetFrom(number: Word, t: nat): (r: Word)
    requires t <= 256
  {
    Pow2Values();
    Pow2Mono(t, 256);
    BitOpsBound(number, TWO_256 - 1 - (Pow2(t) - 1), 256);
    BitOr(number, TWO_256 - 1 - (Pow2(t) - 1))
  }

  /** `number & ((1 << t) - 1)`. */
  function KeepBelow(number: Word, t: nat): (r: Word)
    requires t <= 256
  {
    Pow2Values();
    Pow2Mono(t, 256);
    BitOpsBound(number, Pow2(t) - 1, 256);
    BitAnd(number, Pow2(t) - 1)
  }

  lemma MaskedHalves(number: Word, t: nat)
    requires t <= 256
    ensures Pow2(t) <= TWO_256
    ensures SetFrom(number, t) == number % Pow2(t) + TWO_256 - Pow2(t)
    ensures KeepBelow(number, t) == number % Pow2(t)
  {
    OrHighMask256(number, t);
    AndLowMask(number, t);
    LowIsMod(number, t);
  }

  /** The low `bits` bits of `number` read as a signed integer of that width. */
  function SignedPrefix(number: nat, bits: nat): (v: int)
    requires bits > 0
  {
    var low := number % Pow2(bits);
    if low < Pow2(bits - 1) then low else low - Pow2(bits)
  }

  lemma SplitTopBit(x: nat, t: nat)
    ensures x % Pow2(t + 1) == x % Pow2(t) + (if BitTest(x, t) then Pow2(t) else 0)
  {
    var p := Pow2(t);
    var q := x / p;
    MulDistrib(q / 2 * 2, q % 2, p);
    MulAssoc(q / 2, 2, p);
    DivModUnique(x, 2 * p, q / 2, q % 2 * p + x % p);
  }

  function SignExtension(k: Word, number: Word): (r: Word)
  {
    Unsigned(SignedPrefix(number, 8 * k + 8))
  }

  /** SIGNEXTEND keeps the value of the low `8(k + 1)` bits read as signed, for every word `k`. */
  lemma SignExtendCorrect(k: Word, number: Word)
    ensures SignExtend(k, number) == SignExtension(k, number)
  {
    if k < 31 {
      SignExtendNarrow(k, number);
    } else {
      SignExtendWide(8 * k + 8, number);
    }
  }

  lemma SignExtendNarrow(k: nat, number: Word)
    requires k < 31
    ensures SignExtend(k, number) == SignExtension(k, number)
  {
    var t := k * 8 + 7;
    MaskedHalves(number, t);
    SplitTopBit(number, t);
    assert Pow2(t + 1) == 2 * Pow2(t);
    if BitTest(number, t) {
      WrapNegative(number % Pow2(t) - Pow2(t));
    } else {
      DivModUnique(number % Pow2(t), TWO_256, 0, number % Pow2(t));
    }
  }

  lemma SignExtendWide(bits: nat, number: Word)
    requires bits >= 256
    ensures Unsigned(SignedPrefix(number, bits)) == number
  {
    var p, q := Pow2(bits), Pow2(bits - 1);
    assert p >= TWO_256 && q >= TWO_255 && (bits == 256 ==> p == TWO_256) && (bits > 256 ==> q >= TWO_256) by {
      WidePowers(bits);
    }
    assert number % p == number by { DivModUnique(number, p, 0, number); }
    WrapSmall(number);
    if number >= q { WrapNegative(number - p); }
  }

  lemma WidePowers(bits: nat)
    requires bits >= 256
    ensures Pow2(bits) >= TWO_256 && Pow2(bits - 1) >= TWO_255
    ensures bits == 256 ==> Pow2(bits) == TWO_256
    ensures bits > 256 ==> Pow2(bits - 1) >= TWO_256
  {
    Pow2Values();
    Pow2Mono(256, bits);
    Pow2Mono(255, bits - 1);
    if bits > 256 { Pow2Mono(256, bits - 1); }
  }

  // ---- EXP ----

  function Pow(b: nat, e: nat): (r: nat)
  {
    if e == 0 then 1 else b * Pow(b, e - 1)
  }

  function Exp(b: Word, e: Word): (r: Word)
  {
    Wrap256(Pow(b, e))
  }

  lemma {:induction false} PowSquare(b: nat, k: nat)
    ensures Pow(b * b, k) == Pow(b, 2 * k)
  {
    if k > 0 {
      PowSquare(b, k - 1);
      MulAssoc(b, b, Pow(b, 2 * k - 2));
      assert Pow(b, 2 * k) == b * Pow(b, 2 * k - 1);
    }
  }

  /** Remainders may be taken before a product. */
  lemma MulModFactors(a: nat, b: nat, m: nat)
    requires m > 0
    ensures a % m * b % m == a * b % m
    ensures a * (b % m) % m == a * b % m
  {
    MulModLeft(a, b, m);
    MulModLeft(b, a, m);
    assert a * (b % m) == b % m * a;
  }

  lemma MulModLeft(a: nat, b: nat, m: nat)
    requires m > 0
    ensures a % m * b % m == a * b % m
  {
    var q, r := a / m, a % m;
    var s := r * b / m;
    MulDistrib(q * m, r, b);
    MulAssoc(q, m, b);
    MulComm(m, b);
    MulAssoc(q, b, m);
    MulDistrib(q * b, s, m);
    DivModUnique(a * b, m, q * b + s, r * b % m);
  }

  lemma {:induction false} PowMod(b: nat, e: nat, m: nat)
    requires m > 0
    ensures Pow(b % m, e) % m == Pow(b, e) % m
  {
    if e > 0 {
      PowMod(b, e - 1, m);
      MulModFactors(b % m, Pow(b % m, e - 1), m);
      MulModFactors(b % m, Pow(b, e - 1), m);
      MulModFactors(b, Pow(b, e - 1), m);
    }
  }

  /** One round of square-and-multiply under wrap-around. */
  lemma SquareStep(r: nat, b: nat, e: nat, m: nat)
    requires m > 0 && e > 0
    ensures var r' := if e % 2 == 1 then r * b % m else r;
            r' * Pow(b * b % m, e / 2) % m == r * Pow(b, e) % m
  {
    var h := e / 2;
    var r' := if e % 2 == 1 then r * b % m else r;
    PowMod(b * b, h, m);
    PowSquare(b, h);
    MulModFactors(r', Pow(b * b % m, h), m);
    MulModFactors(r', Pow(b, 2 * h), m);
    assert r' * Pow(b * b % m, h) % m == r' * Pow(b, 2 * h) % m;
    if e % 2 == 1 {
      MulModFactors(r * b, Pow(b, 2 * h), m);
      MulAssoc(r, b, Pow(b, 2 * h));
      assert Pow(b, e) == b * Pow(b, 2 * h);
    }
  }

  /** `VM::exp256`: square and multiply on 256-bit words computes the power modulo 2^256. */
  method Exp256(b: Word, e: Word) returns (result: Word)
    ensures result == Pow(b, e) % TWO_256
  {
    result := 1;
    var base: Word, exponent: Word := b, e;
    while exponent != 0
      invariant result * Pow(base, exponent) % TWO_256 == Pow(b, e) % TWO_256
      decreases exponent
    {
      SquareStep(result, base, exponent, TWO_256);
      if exponent % 2 == 1 {
        result := result * base % TWO_256;
      }
      base := base * base % TWO_256;
      exponent := exponent / 2;
    }
    DivModUnique(result, TWO_256, 0, result);
  }

  // ---- The remaining instructions ----

  function ByteOf(i: Word, x: Word): (r: Word)
  {
    if i < 32 then x / Pow2(8 * (31 - i)) % 256 else 0
  }

  function ByteAt(i: Word, x: Word): (r: Word)
  {
    if i < 32 then WordToBytes(x)[i] else 0
  }

  /** BYTE selects the `i`-th byte of the big-endian form. */
  lemma ByteOfCorrect(i: Word, x: Word)
    ensures ByteOf(i, x) == ByteAt(i, x)
  {
    if i < 32 { ToBEIndex(x, 32, i); }
  }

  lemma {:induction false} ToBEIndex(n: nat, len: nat, i: nat)
    requires i < len
    ensures ToBE(n, len)[i] == n / Pow2(8 * (len - 1 - i)) % 256
    decreases len
  {
    if i < len - 1 {
      ToBEIndex(n / 256, len - 1, i);
      var k := 8 * (len - 2 - i);
      Pow2Shift(k);
      DivDiv(n, 256, Pow2(k));
    }
  }

  lemma DivDiv(n: nat, a: nat, b: nat)
    requires a > 0 && b > 0
    ensures a * b > 0 && n / a / b == n / (a * b)
  {
    var q, r := n / a, n % a;
    MulGap(a, b);
    var q2, r2 := q / b, q % b;
    MulDistrib(q2 * b, r2, a);
    MulAssoc(q2, b, a);
    MulComm(a, b);
    MulMono(r2 + 1, b, a);
    MulDistrib(r2, 1, a);
    DivModUnique(n, a * b, q2, r2 * a + r);
  }

  /** Number of bytes an exponent takes, what `32 - firstBitSet / 8` computes. */
  function ByteLength(x: nat): (n: nat)
  {
    if x == 0 then 0 else 1 + ByteLength(x / 256)
  }

  function LeadingZeros(s: Bytes): (n: nat)
    ensures n <= |s|
  {
    if s == [] || s[0] != 0 then 0 else 1 + LeadingZeros(s[1..])
  }

  /** The value of a bit of a byte, from the most significant one. */
  function Weight(m: nat): (w: nat)
    requires m < 8
    ensures w > 0
  {
    if m == 0 then 128 else if m == 1 then 64 else if m == 2 then 32 else if m == 3 then 16
    else if m == 4 then 8 else if m == 5 then 4 else if m == 6 then 2 else 1
  }

  /** Bit `j` of a byte string, from its most significant one. */
  predicate BitAt(s: Bytes, j: nat)
    requires j < 8 * |s|
  {
    s[j / 8] / Weight(j % 8) % 2 == 1
  }

  function Doubled(d: nat, k: nat): (r: nat)
  {
    if k == 0 then d else 2 * Doubled(d, k - 1)
  }

  lemma DoubledValue(d: nat, k: nat)
    requires k < 8
    ensures Doubled(d, k) * Weight(k) == 128 * d
  {
    assert Doubled(d, 1) == 2 * d && Doubled(d, 2) == 4 * d && Doubled(d, 3) == 8 * d;
    assert Doubled(d, 4) == 16 * d && Doubled(d, 5) == 32 * d && Doubled(d, 6) == 64 * d && Doubled(d, 7) == 128 * d;
  }

  /** A byte that reaches its top bit after `k` shifts has that bit first. */
  lemma FirstOfByte(d: Byte, k: nat)
    requires k < 8 && 128 <= Doubled(d, k) < 256
    ensures d / Weight(k) % 2 == 1 && forall m :: 0 <= m < k ==> d / Weight(m) == 0
  {
    var w := Weight(k);
    DoubledValue(d, k);
    MulMono(128, Doubled(d, k), w);
    MulMono(Doubled(d, k) + 1, 256, w);
    MulDistrib(Doubled(d, k), 1, w);
    assert w <= d < 2 * w;
    DivModUnique(d, w, 1, d - w);
    forall m | 0 <= m < k ensures d / Weight(m) == 0
    {
      assert d < Weight(m);
      DivModUnique(d, Weight(m), 0, d);
    }
  }

  /** `firstBitSet`: the index of the first bit that is set, from the most significant one, or the
      number of bits. */
  method FirstBitSet(s: Bytes) returns (ret: nat)
    ensures ret <= 8 * |s| && (ret < 8 * |s| ==> BitAt(s, ret)) && forall j :: 0 <= j < ret ==> !BitAt(s, j)
    ensures ret / 8 == LeadingZeros(s)
  {
    ret := 0;
    var i := 0;
    while i < |s| && s[i] == 0
      invariant 0 <= i <= |s| && ret == 8 * i && LeadingZeros(s) == i + LeadingZeros(s[i..])
      invariant forall j :: 0 <= j < i ==> s[j] == 0
    {
      assert s[i..][1..] == s[i + 1..];
      ret := ret + 8;
      i := i + 1;
    }
    if i < |s| {
      var k := FirstInByte(s[i]);
      ret := ret + k;
      assert ret / 8 == i && ret % 8 == k;
    }
    NoneBefore(s, i, ret);
  }

  lemma NoneBefore(s: Bytes, i: nat, ret: nat)
    requires i <= |s| && 8 * i <= ret <= 8 * |s| && forall j :: 0 <= j < i ==> s[j] == 0
    requires ret > 8 * i ==> ret - 8 * i < 8 && forall m :: 0 <= m < ret - 8 * i ==> s[i] / Weight(m) == 0
    ensures forall j :: 0 <= j < ret ==> !BitAt(s, j)
  {
    forall j | 0 <= j < ret ensures !BitAt(s, j) {
      if j < 8 * i {
        assert j / 8 < i && s[j / 8] == 0;
        DivModUnique(0, Weight(j % 8), 0, 0);
      } else {
        assert j / 8 == i && j % 8 == j - 8 * i;
      }
    }
  }

  /** The inner loop: shift until the top bit is set. */
  method FirstInByte(d: Byte) returns (k: nat)
    requires d != 0
    ensures k < 8 && d / Weight(k) % 2 == 1 && forall m :: 0 <= m < k ==> d / Weight(m) == 0
  {
    k := 0;
    var x: nat := d;
    while x < 128
      invariant x == Doubled(d, k) && k <= 7 && Pow2(k) <= x < 256
      decreases 256 - x
    {
      assert Pow2(7) == 128;
      x := 2 * x;
      k := k + 1;
    }
    FirstOfByte(d, k);
  }

  /** What EXP counts is the length of its exponent. */
  lemma {:induction false} ByteLengthOf(s: Bytes)
    requires s == [] || s[0] != 0
    ensures ByteLength(FromBE(s)) == |s|
  {
    if |s| == 1 {
      assert s[..0] == [];
      assert FromBE(s) == s[0];
      assert ByteLength(FromBE(s) / 256) == 0;
    } else if s != [] {
      var t := s[..|s| - 1];
      ByteLengthOf(t);
      assert FromBE(s) / 256 == FromBE(t);
    }
  }

  lemma {:induction false} LengthByZeros(s: Bytes)
    ensures ByteLength(FromBE(s)) == |s| - LeadingZeros(s)
  {
    if s == [] || s[0] != 0 {
      ByteLengthOf(s);
    } else {
      LengthByZeros(s[1..]);
      assert s == [0] + s[1..];
      FromBEConcat([0], s[1..]);
      assert FromBE([0]) == 0 by { FromBEZeros(1); assert Zeros(1) == [0]; }
    }
  }
}
