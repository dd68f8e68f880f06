/** Recursive length prefix encoding (Yellow Paper appendix B): the stream that writes it, the
    checks of the reader, and their agreement on flat lists of byte strings.
 */
module Rlp {
  import opened Words
  import opened Hosts
  import A = Alu

  const DATA: nat := 0x80
  const LIST: nat := 0xc0
  const IMMEDIATE: nat := 56
  const LENGTH_LIMIT: nat := 0xFFFF_FFFF_FFFF_FEFF

  // ---- Encoding ----

  /** The prefix of `n` bytes of payload; `start` is 0x80 for data and 0xc0 for a list. */
  function Header(start: nat, n: nat): (h: Bytes)
    requires (start == DATA || start == LIST) && n < TWO_64
    ensures 1 <= |h| <= 9
  {
    LengthBytes(n);
    if n < IMMEDIATE then [start + n] else [start + 55 + A.ByteLength(n)] + ToBE(n, A.ByteLength(n))
  }

  function EncodeData(s: Bytes): (e: Bytes)
    requires |s| < TWO_64
    ensures |s| <= |e| <= |s| + 9 && |e| > 0
  {
    if |s| == 1 && s[0] < DATA then s else Header(DATA, |s|) + s
  }

  function EncodeList(payload: Bytes): (e: Bytes)
    requires |payload| < TWO_64
    ensures |payload| < |e| <= |payload| + 9
  {
    Header(LIST, |payload|) + payload
  }

  /** The shortest big-endian form of a number. */
  function Compact(i: nat): (s: Bytes)
    ensures |s| == A.ByteLength(i)
  {
    ToBE(i, A.ByteLength(i))
  }

  lemma {:induction false} ByteLengthExact(i: nat)
    ensures i < Pow2(8 * A.ByteLength(i))
    ensures i > 0 ==> A.ByteLength(i) > 0 && Compact(i)[0] != 0
  {
    if i > 0 {
      ByteLengthExact(i / 256);
      Pow2Shift(8 * A.ByteLength(i / 256));
      if i >= 256 {
        assert Compact(i) == Compact(i / 256) + [i % 256];
      } else {
        assert A.ByteLength(i / 256) == 0;
        assert Compact(i) == ToBE(0, 0) + [i % 256];
      }
    }
  }

  lemma {:induction false} ByteLengthBound(i: nat, n: nat)
    requires i < Pow2(8 * n)
    ensures A.ByteLength(i) <= n
  {
    if i > 0 && n > 0 {
      Pow2Shift(8 * (n - 1));
      ByteLengthBound(i / 256, n - 1);
    }
  }

  lemma LengthBytes(n: nat)
    requires n < TWO_64
    ensures A.ByteLength(n) <= 8
  {
    var k := 8;
    assert Pow2(8 * k) == TWO_64 by { Pow2Values(); }
    ByteLengthBound(n, k);
  }

  // ---- The reader ----

  datatype Prefix = Prefix(isList: bool, offset: nat, length: nat)

  /** `requireGood`, `length` and `payloadOffset` on non-empty data. */
  function ParsePrefix(d: Bytes): (r: Option<Prefix>)
    requires |d| > 0
    ensures r.Some? ==> r.value.offset + r.value.length > 0
  {
    if d[0] < 0x80 then Some(Prefix(false, 0, 1))
    else if d[0] <= 0xb7 then
      if d[0] == 0x81 && (|d| < 2 || d[1] < DATA) then None else Some(Prefix(false, 1, d[0] - 0x80))
    else if d[0] < 0xc0 then LongPrefix(d, false, d[0] - 0xb7)
    else if d[0] <= 0xf7 then Some(Prefix(true, 1, d[0] - 0xc0))
    else LongPrefix(d, true, d[0] - 0xf7)
  }

  /** A length in `n` bytes: no leading zero, not one that fits the first byte, and one that leaves
      room to add the offset. */
  function LongPrefix(d: Bytes, isList: bool, n: nat): (r: Option<Prefix>)
    requires |d| > 0 && 0 < n
    ensures r.Some? ==> r.value.offset + r.value.length > 0
  {
    if |d| <= n || d[1] == 0 then None
    else
      var length := BEAt(d, 1, n);
      if length < IMMEDIATE || length >= LENGTH_LIMIT then None else Some(Prefix(isList, 1 + n, length))
  }

  /** The items of a list payload, each with its prefix. */
  function SplitItems(payload: Bytes): (r: Option<seq<Bytes>>)
    ensures r.Some? ==> forall i :: 0 <= i < |r.value| ==> Whole(r.value[i])
  {
    if payload == [] then Some([])
    else match ParsePrefix(payload)
      case None => None
      case Some(p) =>
        var size := p.offset + p.length;
        if size > |payload| then None
        else
          PrefixLocal(payload, payload[size..]);
          match SplitItems(payload[size..])
          case None => None
          case Some(rest) => Some([payload[..size]] + rest)
  }

  /** `d` is exactly one item. */
  predicate Whole(d: Bytes)
  {
    |d| > 0 && ParsePrefix(d).Some? && ParsePrefix(d).value.offset + ParsePrefix(d).value.length == |d|
  }

  lemma {:induction false} BEAtPrefix(a: Bytes, b: Bytes, lo: nat, n: nat)
    requires a <= b && lo + n <= |a|
    ensures BEAt(a, lo, n) == BEAt(b, lo, n)
    decreases n
  {
    if n > 0 { BEAtPrefix(a, b, lo, n - 1); }
  }

  /** An item is read the same alone or followed by others. */
  lemma PrefixLocal(payload: Bytes, rest: Bytes)
    requires |payload| > 0 && ParsePrefix(payload).Some?
    requires var p := ParsePrefix(payload).value; p.offset + p.length <= |payload| && rest == payload[p.offset + p.length..]
    ensures var p := ParsePrefix(payload).value; Whole(payload[..p.offset + p.length])
  {
    var p := ParsePrefix(payload).value;
    var d := payload[..p.offset + p.length];
    if 0xb7 < d[0] < 0xc0 { BEAtPrefix(d, payload, 1, d[0] - 0xb7); }
    if 0xf7 < d[0] { BEAtPrefix(d, payload, 1, d[0] - 0xf7); }
  }

  function Payload(d: Bytes): (s: Bytes)
    requires Whole(d)
  {
    d[ParsePrefix(d).value.offset..]
  }

  predicate IsData(d: Bytes)
  {
    |d| > 0 && d[0] < LIST
  }

  predicate IsEmpty(d: Bytes)
  {
    |d| > 0 && (d[0] == DATA || d[0] == LIST)
  }

  /** `toInt` with its default flags: canonical, and at most `maxSize` bytes. */
  function ToInt(d: Bytes, maxSize: nat): (r: Option<nat>)
    requires Whole(d)
  {
    var p := Payload(d);
    if !IsData(d) || (|p| > 0 && p[0] == 0) || |p| > maxSize then None else Some(FromBE(p))
  }

  // ---- Reading back ----

  lemma {:induction false} BEAtIs(s: Bytes, lo: nat, n: nat)
    requires lo + n <= |s|
    ensures BEAt(s, lo, n) == FromBE(s[lo..lo + n])
    decreases n
  {
    if n > 0 {
      BEAtIs(s, lo, n - 1);
      assert s[lo..lo + n][..n - 1] == s[lo..lo + n - 1];
    }
  }

  /** A long length is read back from behind its first byte. */
  lemma LongPrefixOf(d: Bytes, isList: bool, n: nat)
    requires IMMEDIATE <= n < LENGTH_LIMIT
    requires var k := A.ByteLength(n); |d| > k && d[1..k + 1] == Compact(n)
    ensures A.ByteLength(n) > 0 && LongPrefix(d, isList, A.ByteLength(n)) == Some(Prefix(isList, 1 + A.ByteLength(n), n))
  {
    var k := A.ByteLength(n);
    ByteLengthExact(n);
    assert d[1] == Compact(n)[0];
    BEAtIs(d, 1, k);
    FromToBE(n, k);
  }

  lemma HeaderParses(start: nat, n: nat, tail: Bytes)
    requires (start == DATA || start == LIST) && n < LENGTH_LIMIT
    requires start == DATA && n == 1 ==> |tail| >= 1 && tail[0] >= DATA
    ensures ParsePrefix(Header(start, n) + tail) == Some(Prefix(start == LIST, |Header(start, n)|, n))
  {
    var d := Header(start, n) + tail;
    LengthBytes(n);
    if n >= IMMEDIATE {
      ByteLengthExact(n);
      assert d[1..A.ByteLength(n) + 1] == Compact(n);
      LongPrefixOf(d, start == LIST, n);
    }
  }

  /** The two forms of appendix B: up to 55 bytes behind one byte that adds the length to `short`,
      longer ones behind one that adds the number of length bytes to `long`, and the length. */
  ghost predicate Formed(e: Bytes, short: nat, long: nat, s: Bytes)
  {
    if |s| <= 55 then |e| == |s| + 1 && e[0] == short + |s| && e[1..] == s
    else
      && |e| > 0 && long < e[0] <= long + 8
      && var k := e[0] - long;
      && |e| == 1 + k + |s| && e[1] != 0 && FromBE(e[1..1 + k]) == |s| && e[1 + k..] == s
  }

  lemma HeaderForm(start: nat, s: Bytes)
    requires (start == DATA || start == LIST) && |s| < TWO_64
    ensures Formed(Header(start, |s|) + s, start, start + 55, s)
  {
    var e := Header(start, |s|) + s;
    if |s| > 55 {
      LengthBytes(|s|);
      ByteLengthExact(|s|);
      var k := A.ByteLength(|s|);
      assert e[1..1 + k] == Compact(|s|);
      FromToBE(|s|, k);
    }
  }

  lemma DataForm(s: Bytes)
    requires |s| < TWO_64
    ensures if |s| == 1 && s[0] < 0x80 then EncodeData(s) == s else Formed(EncodeData(s), 0x80, 0xb7, s)
  {
    HeaderForm(DATA, s);
  }

  lemma ListForm(payload: Bytes)
    requires |payload| < TWO_64
    ensures Formed(EncodeList(payload), 0xc0, 0xf7, payload)
  {
    HeaderForm(LIST, payload);
  }

  /** Encoded data is one item that holds the data, whatever follows it. */
  lemma EncodedParses(s: Bytes, tail: Bytes)
    requires |s| < LENGTH_LIMIT
    ensures var e := EncodeData(s);
      ParsePrefix(e + tail) == Some(Prefix(false, |e| - |s|, |s|))
  {
    if !(|s| == 1 && s[0] < DATA) {
      assert EncodeData(s) + tail == Header(DATA, |s|) + (s + tail);
      HeaderParses(DATA, |s|, s + tail);
    }
  }

  lemma EncodedWhole(s: Bytes)
    requires |s| < LENGTH_LIMIT
    ensures var e := EncodeData(s); Whole(e) && IsData(e) && Payload(e) == s && (IsEmpty(e) <==> s == [])
  {
    var e := EncodeData(s);
    EncodedParses(s, []);
    assert e + [] == e;
    LengthBytes(|s|);
  }

  /** Data is recovered from its encoding. */
  lemma EncodeInjective(s: Bytes, t: Bytes)
    requires |s| < LENGTH_LIMIT && |t| < LENGTH_LIMIT && EncodeData(s) == EncodeData(t)
    ensures s == t
  {
    EncodedWhole(s);
    EncodedWhole(t);
  }

  /** A number is recovered from its compact form. */
  lemma ToIntOfEncoded(i: nat, maxSize: nat)
    requires A.ByteLength(i) <= maxSize < LENGTH_LIMIT
    ensures var e := EncodeData(Compact(i)); Whole(e) && ToInt(e, maxSize) == Some(i)
  {
    EncodedWhole(Compact(i));
    ByteLengthExact(i);
    FromToBE(i, A.ByteLength(i));
  }

  lemma CompactInjective(i: nat, j: nat)
    requires Compact(i) == Compact(j)
    ensures i == j
  {
    ByteLengthExact(i);
    ByteLengthExact(j);
    FromToBE(i, A.ByteLength(i));
    FromToBE(j, A.ByteLength(j));
  }

  // ---- Flat lists ----

  function TotalSize(fields: seq<Bytes>): (n: nat)
  {
    if fields == [] then 0 else |fields[0]| + 9 + TotalSize(fields[1..])
  }

  function EncodeAll(fields: seq<Bytes>): (e: Bytes)
    requires TotalSize(fields) < LENGTH_LIMIT
    ensures |e| <= TotalSize(fields)
  {
    if fields == [] then [] else EncodeData(fields[0]) + EncodeAll(fields[1..])
  }

  function Encoded(fields: seq<Bytes>): (items: seq<Bytes>)
    requires TotalSize(fields) < LENGTH_LIMIT
    ensures |items| == |fields|
  {
    if fields == [] then [] else [EncodeData(fields[0])] + Encoded(fields[1..])
  }

  lemma {:induction false} SplitEncoded(fields: seq<Bytes>)
    requires TotalSize(fields) < LENGTH_LIMIT
    ensures SplitItems(EncodeAll(fields)) == Some(Encoded(fields))
  {
    if fields != [] {
      var e, tail := EncodeData(fields[0]), EncodeAll(fields[1..]);
      EncodedParses(fields[0], tail);
      assert (e + tail)[..|e|] == e && (e + tail)[|e|..] == tail;
      SplitEncoded(fields[1..]);
    }
  }

  lemma {:induction false} EncodedAt(fields: seq<Bytes>, i: nat)
    requires TotalSize(fields) < LENGTH_LIMIT && i < |fields|
    ensures |fields[i]| < LENGTH_LIMIT && Encoded(fields)[i] == EncodeData(fields[i])
  {
    if i > 0 { EncodedAt(fields[1..], i - 1); }
  }

  /** A complete encoded list, as `RLP(bytes)` accepts it: one whole item that is a list. */
  function ReadList(d: Bytes): (r: Option<seq<Bytes>>)
    ensures r.Some? ==> forall i :: 0 <= i < |r.value| ==> Whole(r.value[i])
  {
    if !Whole(d) || d[0] < LIST then None else SplitItems(Payload(d))
  }

  /** A flat list is read back item by item. */
  lemma ReadEncoded(fields: seq<Bytes>)
    requires TotalSize(fields) < LENGTH_LIMIT
    ensures ReadList(EncodeList(EncodeAll(fields))) == Some(Encoded(fields))
  {
    var payload := EncodeAll(fields);
    HeaderParses(LIST, |payload|, payload);
    SplitEncoded(fields);
    LengthBytes(|payload|);
  }

  /** Different flat lists have different encodings. */
  lemma ListInjective(a: seq<Bytes>, b: seq<Bytes>)
    requires TotalSize(a) < LENGTH_LIMIT && TotalSize(b) < LENGTH_LIMIT
    requires EncodeList(EncodeAll(a)) == EncodeList(EncodeAll(b))
    ensures a == b
  {
    ReadEncoded(a);
    ReadEncoded(b);
    assert |a| == |Encoded(a)| == |b|;
    forall i | 0 <= i < |a| ensures a[i] == b[i]
    {
      EncodedAt(a, i);
      EncodedAt(b, i);
      EncodeInjective(a[i], b[i]);
    }
  }

  // ---- One encoding only ----

  /** Without a leading zero a big-endian string is the shortest form of its number. */
  lemma {:induction false} CompactOf(s: Bytes)
    requires s == [] || s[0] != 0
    ensures Compact(FromBE(s)) == s
  {
    if s != [] {
      var t := s[..|s| - 1];
      CompactOf(t);
      assert FromBE(s) / 256 == FromBE(t) && FromBE(s) % 256 == s[|s| - 1];
      if t == [] {
        assert FromBE(t) == 0;
      }
      assert FromBE(s) > 0 by { Positive(s); }
      assert Compact(FromBE(s)) == Compact(FromBE(t)) + [s[|s| - 1]];
      assert s == t + [s[|s| - 1]];
    }
  }

  lemma {:induction false} Positive(s: Bytes)
    requires |s| > 0 && s[0] != 0
    ensures FromBE(s) > 0
  {
    if |s| > 1 { Positive(s[..|s| - 1]); }
  }

  /** The reader accepts only prefixes that the stream would write. */
  lemma HeaderCanonical(d: Bytes)
    requires Whole(d) && d[0] >= 0x80
    ensures var p := ParsePrefix(d).value;
      p.length < LENGTH_LIMIT && d[..p.offset] == Header(if p.isList then LIST else DATA, p.length)
  {
    var p := ParsePrefix(d).value;
    var n := p.offset - 1;
    if n > 0 {
      BEAtIs(d, 1, n);
      CompactOf(d[1..1 + n]);
      LengthBytes(p.length);
      assert d[..p.offset] == [d[0]] + d[1..1 + n];
    }
  }

  /** A byte that is its own encoding is not accepted in two bytes. */
  lemma NotSingle(d: Bytes)
    requires Whole(d) && 0x80 <= d[0] < LIST
    ensures !ParsePrefix(d).value.isList && !(|Payload(d)| == 1 && Payload(d)[0] < DATA)
  {
    if |Payload(d)| == 1 {
      assert d[0] == 0x81;
    }
  }

  /** Data has one encoding only. */
  lemma DataCanonical(d: Bytes)
    requires Whole(d) && IsData(d)
    ensures |Payload(d)| < LENGTH_LIMIT && EncodeData(Payload(d)) == d
  {
    var p := ParsePrefix(d).value;
    if d[0] >= 0x80 {
      HeaderCanonical(d);
      NotSingle(d);
      assert d == d[..p.offset] + Payload(d);
    }
  }

  lemma ListCanonical(d: Bytes)
    requires Whole(d) && d[0] >= LIST
    ensures |Payload(d)| < LENGTH_LIMIT && EncodeList(Payload(d)) == d
  {
    HeaderCanonical(d);
    assert d == d[..ParsePrefix(d).value.offset] + Payload(d);
  }

  /** A number has one encoding only. */
  lemma IntCanonical(d: Bytes, maxSize: nat)
    requires Whole(d) && ToInt(d, maxSize).Some?
    ensures var i := ToInt(d, maxSize).value; A.ByteLength(i) <= maxSize && A.ByteLength(i) < LENGTH_LIMIT && EncodeData(Compact(i)) == d
  {
    DataCanonical(d);
    CompactOf(Payload(d));
  }

  function Join(items: seq<Bytes>): (s: Bytes)
  {
    if items == [] then [] else items[0] + Join(items[1..])
  }

  lemma {:induction false} SplitJoins(payload: Bytes)
    requires SplitItems(payload).Some?
    ensures Join(SplitItems(payload).value) == payload
  {
    if payload != [] {
      var p := ParsePrefix(payload).value;
      var size := p.offset + p.length;
      SplitJoins(payload[size..]);
      assert payload == payload[..size] + payload[size..];
    }
  }
}
