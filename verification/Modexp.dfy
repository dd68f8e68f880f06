/** The modular exponentiation precompile and its price (EIP-198). */
module Modexp {
  import opened Words
  import A = Alu

  // ---- Windows of the input ----

  /** The big-endian integer in `count` bytes from `begin`, the input going on with zeros for ever. */
  function Window(input: Bytes, begin: nat, count: nat): (n: nat)
  {
    FromBE(Padded(input, begin, count))
  }

  /** `parseBigEndianRightPadded`: crop to what is there, then shift. */
  method ParseBigEndianRightPadded(input: Bytes, begin: nat, count: nat) returns (ret: nat)
    ensures ret == Window(input, begin, count)
  {
    WindowParts(input, begin, count);
    if begin > |input| { return 0; }
    var n := if count < |input| - begin then count else |input| - begin;
    ret := FromBigEndian(input[begin..begin + n]);
    ret := ret * Pow2(8 * (count - n));
  }

  method FromBigEndian(s: Bytes) returns (ret: nat)
    ensures ret == FromBE(s)
  {
    ret := 0;
    var i := 0;
    while i < |s|
      invariant 0 <= i <= |s| && ret == FromBE(s[..i])
    {
      assert s[..i + 1][..i] == s[..i];
      ret := 256 * ret + s[i];
      i := i + 1;
    }
    assert s[..i] == s;
  }

  lemma WindowParts(input: Bytes, begin: nat, count: nat)
    ensures begin > |input| ==> Window(input, begin, count) == 0
    ensures begin <= |input| ==>
      var n := if count < |input| - begin then count else |input| - begin;
      Window(input, begin, count) == FromBE(input[begin..begin + n]) * Pow2(8 * (count - n))
  {
    if begin > |input| {
      assert Padded(input, begin, count) == Zeros(count);
      FromBEZeros(count);
    } else {
      var n := if count < |input| - begin then count else |input| - begin;
      assert Padded(input, begin, count) == input[begin..begin + n] + Zeros(count - n);
      FromBEConcat(input[begin..begin + n], Zeros(count - n));
      FromBEZeros(count - n);
    }
  }

  lemma WindowBound(input: Bytes, begin: nat, count: nat)
    ensures Window(input, begin, count) < Pow2(8 * count)
  {
    FromBEBound(Padded(input, begin, count));
  }

  lemma WindowSplit(input: Bytes, begin: nat, m: nat, n: nat)
    ensures Window(input, begin, m + n) == Window(input, begin, m) * Pow2(8 * n) + Window(input, begin + m, n)
  {
    assert Padded(input, begin, m + n) == Padded(input, begin, m) + Padded(input, begin + m, n);
    FromBEConcat(Padded(input, begin, m), Padded(input, begin + m, n));
  }

  // ---- The top bit ----

  /** `msb`: the index of the highest bit that is set. */
  function Msb(x: nat): (k: nat)
    requires x > 0
  {
    if x == 1 then 0 else 1 + Msb(x / 2)
  }

  lemma {:induction false} MsbBounds(x: nat)
    requires x > 0
    ensures Pow2(Msb(x)) <= x < Pow2(Msb(x) + 1)
  {
    if x == 1 {
      assert Pow2(1) == 2 * Pow2(0);
    } else {
      MsbBounds(x / 2);
    }
  }

  lemma MsbUnique(x: nat, k: nat)
    requires x > 0 && Pow2(k) <= x < Pow2(k + 1)
    ensures Msb(x) == k
  {
    MsbBounds(x);
    if Msb(x) < k { Pow2Mono(Msb(x) + 1, k); }
    if k < Msb(x) { Pow2Mono(k + 1, Msb(x)); }
  }

  lemma MsbBelow(x: nat, k: nat)
    requires 0 < x < Pow2(k)
    ensures Msb(x) < k
  {
    MsbBounds(x);
    if Msb(x) >= k { Pow2Mono(k, Msb(x)); }
  }

  /** Lower digits do not move the top bit. */
  lemma MsbShift(x: nat, k: nat, low: nat)
    requires x > 0 && low < Pow2(k)
    ensures x * Pow2(k) + low > 0 && Msb(x * Pow2(k) + low) == Msb(x) + k
  {
    var p := Pow2(k);
    MsbBounds(x);
    Pow2Add(Msb(x), k);
    Pow2Add(Msb(x) + 1, k);
    MulMono(Pow2(Msb(x)), x, p);
    MulMono(x + 1, Pow2(Msb(x) + 1), p);
    MulDistrib(x, 1, p);
    MsbUnique(x * p + low, Msb(x) + k);
  }

  /** The top bit of the whole exponent; 0 for the exponent 0. */
  function TopBit(x: nat): (k: nat)
  {
    if x == 0 then 0 else Msb(x)
  }

  // ---- The price ----

  function ExpLengthAdjust(offset: nat, length: nat, input: Bytes): (r: nat)
  {
    if length <= 32 then TopBit(Window(input, offset, length))
    else 8 * (length - 32) + TopBit(Window(input, offset, 32))
  }

  /** The adjusted length is never below the top bit of the full exponent, and equal to it exactly
      when the exponent fits a word or its first word is not zero. */
  lemma ExpLengthCovers(offset: nat, length: nat, input: Bytes)
    ensures var top := TopBit(Window(input, offset, length)); var adjusted := ExpLengthAdjust(offset, length, input);
            adjusted >= top && (adjusted == top <==> length <= 32 || Window(input, offset, 32) != 0)
  {
    if length > 32 {
      var first, rest := Window(input, offset, 32), Window(input, offset + 32, length - 32);
      var k := 8 * (length - 32);
      WindowSplit(input, offset, 32, length - 32);
      WindowBound(input, offset + 32, length - 32);
      if first > 0 {
        MsbShift(first, k, rest);
      } else if rest > 0 {
        MsbBelow(rest, k);
      }
    }
  }

  function MultComplexity(x: nat): (c: int)
  {
    if x <= 64 then x * x
    else if x <= 1024 then x * x / 4 + 96 * x - 3072
    else x * x / 16 + 480 * x - 199680
  }

  lemma ComplexityStep(x: nat)
    ensures MultComplexity(x) <= MultComplexity(x + 1)
  {
    assert (x + 1) * (x + 1) == x * x + 2 * x + 1 by {
      MulDistrib(x, 1, x + 1);
      MulComm(x, x + 1);
      MulDistrib(x, 1, x);
    }
  }

  /** The three pieces meet at 64 and 1024 and never fall. */
  lemma {:induction false} ComplexityMonotone(x: nat, y: nat)
    requires x <= y
    ensures MultComplexity(x) <= MultComplexity(y)
    decreases y
  {
    if x < y {
      ComplexityMonotone(x, y - 1);
      ComplexityStep(y - 1);
    }
  }

  lemma ComplexityPositive(x: nat)
    ensures MultComplexity(x) >= x
  {
    if x <= 64 {
      if x > 0 { MulMono(1, x, x); }
    } else {
      ComplexityAtLeast(x);
    }
  }

  lemma {:induction false} ComplexityAtLeast(x: nat)
    requires x >= 64
    ensures MultComplexity(x) >= 64 * x
  {
    MulMono(64, x, x);
    if x > 1024 { MulMono(1024, x, x); }
  }

  datatype Lengths = Lengths(base: nat, exp: nat, mod: nat)

  function LengthsOf(input: Bytes): (l: Lengths)
  {
    Lengths(Window(input, 0, 32), Window(input, 32, 32), Window(input, 64, 32))
  }

  function Max(a: nat, b: nat): (m: nat)
  {
    if a < b then b else a
  }

  function Price(input: Bytes): (g: int)
  {
    var l := LengthsOf(input);
    MultComplexity(Max(l.mod, l.base)) * Max(ExpLengthAdjust(l.base + 96, l.exp, input), 1) / 20
  }

  /** The three numbers of a call. */
  function BaseOf(input: Bytes): (n: nat)
  {
    Window(input, 96, LengthsOf(input).base)
  }

  function ExponentOf(input: Bytes): (n: nat)
  {
    var l := LengthsOf(input);
    Window(input, 96 + l.base, l.exp)
  }

  function ModulusOf(input: Bytes): (n: nat)
  {
    var l := LengthsOf(input);
    Window(input, 96 + l.base + l.exp, l.mod)
  }

  lemma QuotientMono(a: int, b: int)
    requires a <= b
    ensures a / 20 <= b / 20
  {
  }

  /** The price is at least what the complexity of any length up to the longer operand and the true
      top bit of the exponent would cost. */
  lemma PriceCovers(input: Bytes, length: nat)
    requires length <= LengthsOf(input).base || length <= LengthsOf(input).mod
    ensures Price(input) >= MultComplexity(length) * Max(TopBit(ExponentOf(input)), 1) / 20
  {
    var l := LengthsOf(input);
    var adjusted := Max(ExpLengthAdjust(l.base + 96, l.exp, input), 1);
    var top := Max(TopBit(ExponentOf(input)), 1);
    var most := Max(l.mod, l.base);
    ExpLengthCovers(l.base + 96, l.exp, input);
    ComplexityMonotone(length, most);
    ComplexityPositive(length);
    MulMono(MultComplexity(length), MultComplexity(most), top);
    MulMono(top, adjusted, MultComplexity(most));
    MulComm(top, MultComplexity(most));
    MulComm(adjusted, MultComplexity(most));
    QuotientMono(MultComplexity(length) * top, MultComplexity(most) * adjusted);
  }

  // ---- Sizes that memory can hold ----

  const SIZE_LIMIT: nat := 0x1FFF_FFFF_FFFF_FFFF
  const PAID_LIMIT: nat := 922337203685477568

  /** What the executor asserts about its operand lengths. */
  predicate Representable(l: Lengths)
  {
    l.base <= SIZE_LIMIT && l.mod <= SIZE_LIMIT && ((l.base == 0 && l.mod == 0) || l.exp <= SIZE_LIMIT)
  }

  /** Whoever could pay with less than 922337203685477568 gas passes operands that fit the memory. */
  lemma PaidIsRepresentable(input: Bytes)
    requires Price(input) < PAID_LIMIT
    ensures Representable(LengthsOf(input))
  {
    var l := LengthsOf(input);
    var most := Max(l.mod, l.base);
    var c := MultComplexity(most);
    var adjusted := Max(ExpLengthAdjust(l.base + 96, l.exp, input), 1);
    ComplexityPositive(most);
    if most > SIZE_LIMIT {
      ComplexityAtLeast(most);
      MulMono(1, adjusted, c);
      MulComm(adjusted, c);
      QuotientMono(64 * SIZE_LIMIT, c * adjusted);
    } else if most > 0 && l.exp > SIZE_LIMIT {
      MulMono(1, c, adjusted);
      QuotientMono(8 * (SIZE_LIMIT + 1 - 32), c * adjusted);
    }
  }

  /** At that price it can fail: one modulus byte and an exponent of 2^61 bytes starting with zeros. */
  lemma PaidLimitTight() returns (input: Bytes)
    ensures Price(input) == PAID_LIMIT && !Representable(LengthsOf(input))
  {
    var length: Word, zero: Word, one: Word := SIZE_LIMIT + 1, 0, 1;
    input := WordToBytes(zero) + WordToBytes(length) + WordToBytes(one);
    WordWindow(input, 0, zero);
    WordWindow(input, 32, length);
    WordWindow(input, 64, one);
    assert Padded(input, 96, 32) == Zeros(32);
    FromBEZeros(32);
    assert ExpLengthAdjust(96, length, input) == 8 * (SIZE_LIMIT + 1 - 32);
    assert MultComplexity(1) == 1;
  }

  lemma WordWindow(input: Bytes, begin: nat, w: Word)
    requires begin + 32 <= |input| && input[begin..begin + 32] == WordToBytes(w)
    ensures Window(input, begin, 32) == w
  {
    assert Padded(input, begin, 32) == WordToBytes(w);
    WordRoundTrip(w);
  }

  // ---- The executor ----

  /** `toBigEndian` into a buffer of the given length, last byte first. */
  method ToBigEndian(val: nat, length: nat) returns (out: Bytes)
    ensures out == ToBE(val, length)
  {
    var o := new Byte[length];
    var v, i := val, length;
    while i != 0
      invariant 0 <= i <= length
      invariant ToBE(val, length) == ToBE(v, i) + o[i..]
    {
      o[i - 1] := v % 256;
      assert o[i - 1..] == [v % 256] + o[i..];
      assert ToBE(v, i) == ToBE(v / 256, i - 1) + [v % 256];
      v := v / 256;
      i := i - 1;
    }
    out := o[..];
  }

  /** `base ^ exp mod m`, zero for a zero modulus, in exactly as many bytes as the modulus has. */
  method Execute(input: Bytes) returns (out: Bytes)
    requires Representable(LengthsOf(input))
    ensures |out| == LengthsOf(input).mod
    ensures FromBE(out) == if ModulusOf(input) == 0 then 0 else A.Pow(BaseOf(input), ExponentOf(input)) % ModulusOf(input)
  {
    var baseLength := ParseBigEndianRightPadded(input, 0, 32);
    var expLength := ParseBigEndianRightPadded(input, 32, 32);
    var modLength := ParseBigEndianRightPadded(input, 64, 32);
    ModulusBound(input);
    if modLength == 0 && baseLength == 0 { return []; }
    var base := ParseBigEndianRightPadded(input, 96, baseLength);
    var exp := ParseBigEndianRightPadded(input, 96 + baseLength, expLength);
    var mod := ParseBigEndianRightPadded(input, 96 + baseLength + expLength, modLength);
    var result := if mod != 0 then A.Pow(base, exp) % mod else 0;
    out := ToBigEndian(result, modLength);
    FromToBE(result, modLength);
  }

  lemma ModulusBound(input: Bytes)
    ensures ModulusOf(input) < Pow2(8 * LengthsOf(input).mod)
    ensures LengthsOf(input).mod == 0 ==> ModulusOf(input) == 0
  {
    var l := LengthsOf(input);
    WindowBound(input, 96 + l.base + l.exp, l.mod);
  }

  // ---- The layout of EIP-198 ----

  lemma WindowInside(input: Bytes, begin: nat, s: Bytes)
    requires begin + |s| <= |input| && input[begin..begin + |s|] == s
    ensures Window(input, begin, |s|) == FromBE(s)
  {
    assert Padded(input, begin, |s|) == s;
  }

  /** Three lengths of 32 bytes, then base, exponent and modulus. */
  ghost predicate LaidOut(input: Bytes, b: Bytes, e: Bytes, m: Bytes)
  {
    && |b| < TWO_256 && |e| < TWO_256 && |m| < TWO_256
    && input == WordToBytes(|b|) + WordToBytes(|e|) + WordToBytes(|m|) + b + e + m
  }

  lemma LayoutLengths(input: Bytes, b: Bytes, e: Bytes, m: Bytes)
    requires LaidOut(input, b, e, m)
    ensures |input| == 96 + |b| + |e| + |m| && LengthsOf(input) == Lengths(|b|, |e|, |m|)
  {
    WordWindow(input, 0, |b|);
    WordWindow(input, 32, |e|);
    WordWindow(input, 64, |m|);
  }

  /** Base, exponent and modulus lie where the lengths put them. */
  ghost predicate Holds(input: Bytes, b: Bytes, e: Bytes, m: Bytes)
  {
    && |input| == 96 + |b| + |e| + |m| && LengthsOf(input) == Lengths(|b|, |e|, |m|)
    && input[96..96 + |b|] == b && input[96 + |b|..96 + |b| + |e|] == e
    && input[96 + |b| + |e|..96 + |b| + |e| + |m|] == m
  }

  lemma LayoutHolds(input: Bytes, b: Bytes, e: Bytes, m: Bytes)
    requires LaidOut(input, b, e, m)
    ensures Holds(input, b, e, m)
  {
    LayoutLengths(input, b, e, m);
    LayoutWindows(input, b, e, m);
  }

  lemma HeldBase(input: Bytes, b: Bytes, e: Bytes, m: Bytes)
    requires Holds(input, b, e, m)
    ensures BaseOf(input) == FromBE(b)
  {
    WindowInside(input, 96, b);
  }

  lemma HeldExponent(input: Bytes, b: Bytes, e: Bytes, m: Bytes)
    requires Holds(input, b, e, m)
    ensures ExponentOf(input) == FromBE(e) == Window(input, 96 + |b|, |e|)
    ensures |e| > 32 ==> Window(input, 96 + |b|, 32) == FromBE(e[..32])
  {
    WindowInside(input, 96 + |b|, e);
    if |e| > 32 {
      assert input[96 + |b|..96 + |b| + 32] == e[..32];
      WindowInside(input, 96 + |b|, e[..32]);
    }
  }

  lemma HeldModulus(input: Bytes, b: Bytes, e: Bytes, m: Bytes)
    requires Holds(input, b, e, m)
    ensures ModulusOf(input) == FromBE(m)
  {
    WindowInside(input, 96 + |b| + |e|, m);
  }

  lemma Layout(input: Bytes, b: Bytes, e: Bytes, m: Bytes)
    requires LaidOut(input, b, e, m)
    ensures LengthsOf(input) == Lengths(|b|, |e|, |m|)
    ensures BaseOf(input) == FromBE(b) && ExponentOf(input) == FromBE(e) && ModulusOf(input) == FromBE(m)
  {
    LayoutHolds(input, b, e, m);
    HeldBase(input, b, e, m);
    HeldExponent(input, b, e, m);
    HeldModulus(input, b, e, m);
  }

  lemma LayoutWindows(input: Bytes, b: Bytes, e: Bytes, m: Bytes)
    requires LaidOut(input, b, e, m) && |input| == 96 + |b| + |e| + |m|
    ensures input[96..96 + |b|] == b && input[96 + |b|..96 + |b| + |e|] == e
    ensures input[96 + |b| + |e|..96 + |b| + |e| + |m|] == m
  {
  }

  /** The precompile on its three operands: `b ^ e mod m` in as many bytes as `m` has, 0 for `m` 0. */
  method ExecuteOn(b: Bytes, e: Bytes, m: Bytes) returns (out: Bytes)
    requires |b| < TWO_256 && |e| < TWO_256 && |m| < TWO_256 && Representable(Lengths(|b|, |e|, |m|))
    ensures |out| == |m| && FromBE(out) == if FromBE(m) == 0 then 0 else A.Pow(FromBE(b), FromBE(e)) % FromBE(m)
  {
    var input := WordToBytes(|b|) + WordToBytes(|e|) + WordToBytes(|m|) + b + e + m;
    Layout(input, b, e, m);
    out := Execute(input);
  }

  /** Its price: the complexity of the longer of base and modulus, times the top bit of the exponent,
      of which only the first word is looked at and every further byte counts for eight bits. */
  lemma PriceOn(input: Bytes, b: Bytes, e: Bytes, m: Bytes)
    requires LaidOut(input, b, e, m)
    ensures var bits := if |e| <= 32 then TopBit(FromBE(e)) else 8 * (|e| - 32) + TopBit(FromBE(e[..32]));
      Price(input) == MultComplexity(if |b| < |m| then |m| else |b|) * (if bits < 1 then 1 else bits) / 20
  {
    LayoutHolds(input, b, e, m);
    HeldExponent(input, b, e, m);
    BitsOf(input, |b| + 96, |e|, FromBE(e), FromBE(if |e| > 32 then e[..32] else e));
  }

  lemma BitsOf(input: Bytes, offset: nat, n: nat, whole: nat, first: nat)
    requires Window(input, offset, n) == whole && (n > 32 ==> Window(input, offset, 32) == first)
    ensures ExpLengthAdjust(offset, n, input) == if n <= 32 then TopBit(whole) else 8 * (n - 32) + TopBit(first)
  {
  }

  /** The complexity without its quotients. */
  lemma ComplexityExact(x: nat)
    ensures var c, sq := MultComplexity(x), x * x;
      && (x <= 64 ==> c == sq)
      && (64 < x <= 1024 ==> 4 * (c - 96 * x + 3072) <= sq < 4 * (c - 96 * x + 3072) + 4)
      && (1024 < x ==> 16 * (c - 480 * x + 199680) <= sq < 16 * (c - 480 * x + 199680) + 16)
  {
  }
}
