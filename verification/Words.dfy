/** Machine words, byte strings and the power-of-two arithmetic everything else rests on.
    Unbounded integers stand for `bigint`; the fixed widths of the sources are written out as
    remainders modulo the constants below.
 */
module Words {

  const TWO_32: nat := 0x1_0000_0000
  const TWO_63: nat := 0x8000_0000_0000_0000
  const TWO_64: nat := 0x1_0000_0000_0000_0000
  const TWO_160: nat := 0x1_0000000000_0000000000_0000000000_0000000000
  const TWO_255: nat := 0x8000000000000000_0000000000000000_0000000000000000_0000000000000000
  const TWO_256: nat := 0x1_0000000000000000_0000000000000000_0000000000000000_0000000000000000
  const INT63_MAX: nat := TWO_63 - 1

  type Byte = x: nat | x < 256
  type Word = x: nat | x < TWO_256
  type Address = x: nat | x < TWO_160

  type Bytes = seq<Byte>

  // Conversions to a fixed width.  The literals are spelt out so that the remainders stay linear.

  function Wrap32(x: int): (r: nat)
  {
    x % 0x1_0000_0000
  }

  function Wrap64(x: int): (r: nat)
    ensures r < TWO_64
  {
    x % 0x1_0000_0000_0000_0000
  }

  function Wrap256(x: int): (w: Word)
  {
    x % 0x1_0000000000000000_0000000000000000_0000000000000000_0000000000000000
  }

  /** `asAddress`: the low 160 bits. */
  function ToAddress(x: Word): (a: Address)
  {
    x % 0x1_0000000000_0000000000_0000000000_0000000000
  }

  /** Number of bytes the zero fill of a copy or a fresh buffer contributes. */
  function Zeros(n: nat): (z: Bytes)
    ensures |z| == n
    ensures forall i :: 0 <= i < n ==> z[i] == 0
  {
    seq(n, i => 0)
  }

  function Pow2(n: nat): (p: nat)
    ensures p > 0
  {
    if n == 0 then 1 else 2 * Pow2(n - 1)
  }

  lemma {:induction false} Pow2Add(m: nat, n: nat)
    ensures Pow2(m + n) == Pow2(m) * Pow2(n)
    decreases m
  {
    if m == 0 {
      assert Pow2(m) == 1;
    } else {
      Pow2Add(m - 1, n);
      MulAssoc(2, Pow2(m - 1), Pow2(n));
    }
  }

  lemma {:induction false} Pow2Mono(m: nat, n: nat)
    requires m <= n
    ensures Pow2(m) <= Pow2(n)
    decreases n
  {
    if m < n { Pow2Mono(m, n - 1); }
  }

  lemma Pow2Square(n: nat, p: nat)
    requires Pow2(n) == p
    ensures Pow2(2 * n) == p * p
  {
    Pow2Add(n, n);
  }

  /** The widths used by the sources. */
  lemma Pow2Values()
    ensures Pow2(8) == 256
    ensures Pow2(16) == 65536
    ensures Pow2(32) == TWO_32
    ensures Pow2(64) == TWO_64
    ensures Pow2(255) == TWO_255
    ensures Pow2(256) == TWO_256
  {
    assert Pow2(8) == 256;
    Pow2Square(8, 0x100);
    Pow2Square(16, 0x1_0000);
    Pow2Square(32, 0x1_0000_0000);
    Pow2Square(64, 0x1_0000_0000_0000_0000);
    Pow2Square(128, 0x1_0000_0000_0000_0000_0000_0000_0000_0000);
    var n := 256;
    assert Pow2(n) == 2 * Pow2(n - 1);
  }

  /** A word is split by any bit position. */
  lemma Pow2Split(k: nat)
    requires k <= 256
    ensures Pow2(k) * Pow2(256 - k) == TWO_256
    ensures Pow2(k) <= TWO_256
  {
    var n := 256;
    assert Pow2(n) == TWO_256 by { Pow2Values(); }
    Pow2Add(k, n - k);
    Pow2Mono(k, n);
  }

  /** Eight more bits multiply by 256. */
  lemma Pow2Shift(n: nat)
    ensures Pow2(n + 8) == 256 * Pow2(n)
  {
    Pow2Add(8, n);
    assert Pow2(8) == 256;
  }

  lemma MulAssoc(a: int, b: int, c: int)
    ensures a * b * c == a * (b * c)
  {
  }

  lemma MulDistrib(a: int, b: int, c: int)
    ensures (a + b) * c == a * c + b * c
    ensures (a - b) * c == a * c - b * c
  {
  }

  lemma MulComm(a: int, b: int)
    ensures a * b == b * a
  {
  }

  lemma MulMono(a: nat, b: nat, c: nat)
    requires a <= b
    ensures a * c <= b * c
  {
  }

  /** The Euclidean quotient and remainder are the only ones: the one division fact used below. */
  lemma DivModUnique(x: int, d: nat, q: int, r: int)
    requires d > 0 && x == q * d + r && 0 <= r < d
    ensures x / d == q && x % d == r
  {
    var q' := x / d;
    MulGap(q - q', d);
    MulGap(q' - q, d);
    MulDistrib(q, q', d);
    MulDistrib(q', q, d);
  }

  lemma MulGap(k: int, d: nat)
    ensures k > 0 ==> k * d >= d
  {
    if k > 0 { MulMono(1, k, d); }
  }

  // ---- Big-endian integers ----

  function FromBE(s: Bytes): (n: nat)
  {
    if s == [] then 0 else 256 * FromBE(s[..|s| - 1]) + s[|s| - 1]
  }

  function ToBE(n: nat, len: nat): (s: Bytes)
    ensures |s| == len
  {
    if len == 0 then [] else ToBE(n / 256, len - 1) + [n % 256]
  }

  lemma {:induction false} FromBEBound(s: Bytes)
    ensures FromBE(s) < Pow2(8 * |s|)
  {
    if s != [] {
      FromBEBound(s[..|s| - 1]);
      Pow2Shift(8 * (|s| - 1));
    }
  }

  /** The big-endian integer in `n` bytes of `s` from `lo` on. */
  function BEAt(s: Bytes, lo: nat, n: nat): (v: nat)
    requires lo + n <= |s|
    decreases n
  {
    if n == 0 then 0 else 256 * BEAt(s, lo, n - 1) + s[lo + n - 1]
  }

  lemma {:induction false} BEAtBound(s: Bytes, lo: nat, n: nat)
    requires lo + n <= |s|
    ensures BEAt(s, lo, n) < Pow2(8 * n)
    decreases n
  {
    if n > 0 {
      BEAtBound(s, lo, n - 1);
      Pow2Shift(8 * (n - 1));
    }
  }

  lemma {:induction false} FromToBE(n: nat, len: nat)
    requires n < Pow2(8 * len)
    ensures FromBE(ToBE(n, len)) == n
    decreases len
  {
    if len > 0 {
      Pow2Shift(8 * (len - 1));
      FromToBE(n / 256, len - 1);
      assert ToBE(n, len)[..len - 1] == ToBE(n / 256, len - 1);
    }
  }

  lemma {:induction false} ToFromBE(s: Bytes)
    ensures ToBE(FromBE(s), |s|) == s
  {
    if s != [] {
      ToFromBE(s[..|s| - 1]);
      DivModUnique(FromBE(s), 256, FromBE(s[..|s| - 1]), s[|s| - 1]);
      assert s == s[..|s| - 1] + [s[|s| - 1]];
    }
  }

  lemma {:induction false} FromBEConcat(a: Bytes, b: Bytes)
    ensures FromBE(a + b) == FromBE(a) * Pow2(8 * |b|) + FromBE(b)
    decreases |b|
  {
    if b == [] {
      assert a + b == a;
    } else {
      var c := b[..|b| - 1];
      assert (a + b)[..|a + b| - 1] == a + c;
      FromBEConcat(a, c);
      Pow2Shift(8 * |c|);
      ShiftedSum(FromBE(a), Pow2(8 * |c|), Pow2(8 * |b|), FromBE(c));
    }
  }

  lemma ShiftedSum(x: nat, p: nat, q: nat, y: nat)
    requires q == 256 * p
    ensures 256 * (x * p + y) == x * q + 256 * y
  {
    MulAssoc(x, 256, p);
    MulAssoc(256, x, p);
  }

  lemma {:induction false} FromBEZeros(n: nat)
    ensures FromBE(Zeros(n)) == 0
  {
    if n > 0 {
      assert Zeros(n)[..n - 1] == Zeros(n - 1);
      FromBEZeros(n - 1);
    }
  }

  const WORD_BYTES: nat := 32

  /** The 32 bytes of a word, and the word of 32 bytes. */
  function WordToBytes(w: Word): (s: Bytes)
    ensures |s| == 32
  {
    ToBE(w, WORD_BYTES)
  }

  function BytesToWord(s: Bytes): (w: Word)
    requires |s| == 32
    ensures WordToBytes(w) == s
  {
    FromBEBound(s);
    Pow2Values();
    ToFromBE(s);
    FromBE(s)
  }

  lemma WordRoundTrip(w: Word)
    ensures BytesToWord(WordToBytes(w)) == w
  {
    Pow2Values();
    FromToBE(w, 32);
  }

  /** Bytes `index .. index + size` of `data`, read as if followed by zeros for ever. */
  function Padded(data: Bytes, index: nat, size: nat): (s: Bytes)
    ensures |s| == size
    ensures forall i :: 0 <= i < size ==> s[i] == if index + i < |data| then data[index + i] else 0
  {
    seq(size, i requires 0 <= i < size => if index + i < |data| then data[index + i] else 0)
  }
}
