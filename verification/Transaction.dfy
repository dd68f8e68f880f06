/** Serialisation of transactions: `TransactionBase::streamRLP`, the RLP constructor and the
    payload that is signed (EIP-155).
 */
module Transactions {
  import opened Words
  import opened Hosts
  import opened Rlp
  import opened RlpStreams
  import A = Alu

  const TWO_31: nat := 0x8000_0000
  const VOTE_ADDRESS: Address := 0x766f7465
  const SECP256K1_N: Word := 0xfffffffffffffffffffffffffffffffebaaedce6af48a03bbfd25e8cd0364141

  type Int32 = x: int | -0x8000_0000 <= x < 0x8000_0000

  datatype Kind = NullTransaction | ContractCreation | MessageCall | VoteMessage

  datatype Signature = Signature(r: Word, s: Word, v: Byte)

  datatype Transaction = Transaction(
    kind: Kind,
    nonce: Word,
    gasPrice: Word,
    gas: Word,
    to: Address,
    value: Word,
    data: Bytes,
    chainId: Int32,
    vrs: Option<Signature>)

  predicate IsZero(sig: Signature)
  {
    sig.r == 0 && sig.s == 0
  }

  /** `SignatureStruct::isValid`. */
  predicate IsValid(sig: Signature)
  {
    sig.v <= 1 && 0 < sig.r < SECP256K1_N && 0 < sig.s < SECP256K1_N
  }

  // ---- The items of a transaction ----

  function ToField(t: Transaction): (f: Bytes)
  {
    if t.kind.MessageCall? || t.kind.VoteMessage? then ToBE(t.to, ADDRESS_BYTES) else []
  }

  const ADDRESS_BYTES: nat := 20

  function BasicFields(t: Transaction): (f: seq<Bytes>)
    ensures |f| == 6
  {
    [Compact(t.nonce), Compact(t.gasPrice), Compact(t.gas), ToField(t), Compact(t.value), t.data]
  }

  /** `m_chainId * 2 + 35 + v`. */
  function VOffset(chainId: int, v: nat): (r: int)
  {
    2 * chainId + 35 + v
  }

  predicate FitsInt(x: int)
  {
    -0x8000_0000 <= x < 0x8000_0000
  }

  /** What is written in place of `v`; an `int` goes to the stream as `unsigned`. */
  function WrittenV(t: Transaction): (n: nat)
    requires t.vrs.Some?
  {
    Wrap32(if IsZero(t.vrs.value) then t.chainId else VOffset(t.chainId, t.vrs.value.v))
  }

  function SignedFields(t: Transaction): (f: seq<Bytes>)
    requires t.vrs.Some?
    ensures |f| == 9
  {
    BasicFields(t) + [Compact(WrittenV(t)), Compact(t.vrs.value.r), Compact(t.vrs.value.s)]
  }

  /** EIP-155: chain ids above 0 are signed along, with two zeros. */
  function SigningFields(t: Transaction): (f: seq<Bytes>)
  {
    if t.chainId > 0 then
      var id: nat, zero: nat := t.chainId, 0;
      BasicFields(t) + [Compact(id), Compact(zero), Compact(zero)]
    else BasicFields(t)
  }

  /** No byte array is longer than this. */
  predicate Sized(t: Transaction)
  {
    |t.data| <= INT63_MAX
  }

  lemma WordSize(w: Word)
    ensures A.ByteLength(w) <= 32
  {
    var n := 32;
    assert Pow2(8 * n) == TWO_256 by { Pow2Values(); }
    ByteLengthBound(w, n);
  }

  lemma UnsignedSize(n: nat)
    requires n < TWO_32
    ensures A.ByteLength(n) <= 4
  {
    var k := 4;
    assert Pow2(8 * k) == TWO_32 by { Pow2Values(); }
    ByteLengthBound(n, k);
  }

  lemma {:induction false} TotalAppend(a: seq<Bytes>, b: seq<Bytes>)
    ensures TotalSize(a + b) == TotalSize(a) + TotalSize(b)
  {
    if a == [] {
      assert a + b == b;
    } else {
      assert (a + b)[1..] == a[1..] + b;
      TotalAppend(a[1..], b);
    }
  }

  lemma TotalOf3(a: Bytes, b: Bytes, c: Bytes)
    ensures TotalSize([a, b, c]) == |a| + |b| + |c| + 27
  {
    assert [a, b, c][1..] == [b, c] && [b, c][1..] == [c] && [c][1..] == [];
    assert TotalSize([c]) == |c| + 9;
    assert TotalSize([b, c]) == |b| + 9 + TotalSize([c]);
  }

  lemma BasicSize(t: Transaction)
    ensures TotalSize(BasicFields(t)) <= |t.data| + 300
  {
    WordSize(t.nonce);
    WordSize(t.gasPrice);
    WordSize(t.gas);
    WordSize(t.value);
    var a, b := [Compact(t.nonce), Compact(t.gasPrice), Compact(t.gas)], [ToField(t), Compact(t.value), t.data];
    assert BasicFields(t) == a + b;
    TotalAppend(a, b);
    TotalOf3(Compact(t.nonce), Compact(t.gasPrice), Compact(t.gas));
    TotalOf3(ToField(t), Compact(t.value), t.data);
  }

  lemma SignedSize(t: Transaction)
    requires t.vrs.Some?
    ensures TotalSize(SignedFields(t)) <= |t.data| + 500
  {
    BasicSize(t);
    UnsignedSize(WrittenV(t));
    WordSize(t.vrs.value.r);
    WordSize(t.vrs.value.s);
    var tail := [Compact(WrittenV(t)), Compact(t.vrs.value.r), Compact(t.vrs.value.s)];
    TotalAppend(BasicFields(t), tail);
    TotalOf3(Compact(WrittenV(t)), Compact(t.vrs.value.r), Compact(t.vrs.value.s));
  }

  lemma SigningSize(t: Transaction)
    ensures TotalSize(SigningFields(t)) <= |t.data| + 500
  {
    BasicSize(t);
    if t.chainId > 0 {
      var id: nat, zero: nat := t.chainId, 0;
      UnsignedSize(id);
      UnsignedSize(zero);
      TotalAppend(BasicFields(t), [Compact(id), Compact(zero), Compact(zero)]);
      TotalOf3(Compact(id), Compact(zero), Compact(zero));
    }
  }

  /** `rlp(WithSignature)`; nothing when the transaction is unsigned, which throws. */
  function Encode(t: Transaction): (r: Option<Bytes>)
    requires Sized(t)
  {
    if t.kind.NullTransaction? then Some([])
    else if t.vrs.None? then None
    else
      SignedSize(t);
      Some(EncodeList(EncodeAll(SignedFields(t))))
  }

  /** What `sha3(WithoutSignature)` hashes. */
  function SigningPayload(t: Transaction): (r: Bytes)
    requires Sized(t)
  {
    if t.kind.NullTransaction? then []
    else
      SigningSize(t);
      EncodeList(EncodeAll(SigningFields(t)))
  }

  // ---- The constructor ----

  function ToInt32(n: nat): (i: Int32)
    requires n < TWO_32
  {
    if n < TWO_31 then n else n - TWO_32
  }

  /** Kind and address of item 3: nothing if it is neither empty nor exactly twenty bytes. */
  function ReadTo(d: Bytes): (r: Option<(Kind, Address)>)
    requires Whole(d)
  {
    if IsEmpty(d) then Some((ContractCreation, 0))
    else if !IsData(d) || |Payload(d)| != 20 then None
    else
      AddressBound(Payload(d));
      var a := FromBE(Payload(d));
      Some((if a == VOTE_ADDRESS then VoteMessage else MessageCall, a))
  }

  lemma AddressBound(s: Bytes)
    requires |s| == 20
    ensures FromBE(s) < TWO_160
  {
    FromBEBound(s);
    AddressPower(8 * |s|);
  }

  lemma AddressPower(n: nat)
    requires n == 160
    ensures Pow2(n) == TWO_160
  {
    var k, m := 64, 32;
    assert Pow2(k) == TWO_64 && Pow2(m) == TWO_32 by { Pow2Values(); }
    Pow2Add(k, k);
    assert Pow2(2 * k) == 0x1_0000_0000_0000_0000_0000_0000_0000_0000;
    Pow2Add(m, 2 * k);
  }

  function ReadWord(d: Bytes): (r: Option<Word>)
    requires Whole(d)
  {
    var i := ToInt(d, 32);
    if i.None? then None
    else
      PayloadBound(d, 32);
      Some(i.value)
  }

  lemma PayloadBound(d: Bytes, n: nat)
    requires Whole(d) && ToInt(d, n).Some?
    ensures ToInt(d, n).value < Pow2(8 * n)
    ensures n == 32 ==> ToInt(d, n).value < TWO_256
    ensures n == 4 ==> ToInt(d, n).value < TWO_32
  {
    FromBEBound(Payload(d));
    Pow2Mono(8 * |Payload(d)|, 8 * n);
    Pow2Values();
  }

  /** Chain id and signature from `v`, `r` and `s`; nothing where the constructor throws. */
  function ReadSignature(v: Int32, r: Word, s: Word): (res: Option<(Int32, Signature)>)
  {
    if r == 0 && s == 0 then Some((v, Signature(r, s, 0)))
    else if v < 35 then None
    else Some(((v - 35) / 2, Signature(r, s, (v - 35) % 2)))
  }

  /** The RLP constructor; `cheap` asks for the range check of the signature. */
  function Decode(bytes: Bytes, cheap: bool): (r: Option<Transaction>)
  {
    match ReadList(bytes)
    case None => None
    case Some(items) => if |items| != 9 then None else FromItems(items, cheap)
  }

  function FromItems(items: seq<Bytes>, cheap: bool): (r: Option<Transaction>)
    requires |items| == 9 && forall i :: 0 <= i < 9 ==> Whole(items[i])
  {
    var nonce, gasPrice, gas := ReadWord(items[0]), ReadWord(items[1]), ReadWord(items[2]);
    var to, value := ReadTo(items[3]), ReadWord(items[4]);
    var sig := ReadSigned(items[6], items[7], items[8], cheap);
    if nonce.None? || gasPrice.None? || gas.None? || to.None? || value.None? || !IsData(items[5]) || sig.None? then None
    else
      Some(Transaction(to.value.0, nonce.value, gasPrice.value, gas.value, to.value.1, value.value, Payload(items[5]),
                       sig.value.0, Some(sig.value.1)))
  }

  function ReadSigned(dv: Bytes, dr: Bytes, ds: Bytes, cheap: bool): (res: Option<(Int32, Signature)>)
    requires Whole(dv) && Whole(dr) && Whole(ds)
  {
    var v, r, s := ToInt(dv, 4), ReadWord(dr), ReadWord(ds);
    if v.None? || r.None? || s.None? then None
    else
      PayloadBound(dv, 4);
      var sig := ReadSignature(ToInt32(v.value), r.value, s.value);
      if cheap && sig.Some? && !IsZero(sig.value.1) && !IsValid(sig.value.1) then None else sig
  }

  // ---- Round trips ----

  lemma WordReadBack(w: Word)
    ensures |Compact(w)| < LENGTH_LIMIT
    ensures var e := EncodeData(Compact(w)); Whole(e) && ReadWord(e) == Some(w)
  {
    WordSize(w);
    ToIntOfEncoded(w, 32);
  }

  lemma UnsignedReadBack(i: Int32)
    ensures |Compact(Wrap32(i))| < LENGTH_LIMIT
    ensures var e := EncodeData(Compact(Wrap32(i)));
            Whole(e) && ToInt(e, 4).Some? && ToInt(e, 4).value < TWO_32 && ToInt32(ToInt(e, 4).value) == i
  {
    Int32Wraps(i);
    UnsignedSize(Wrap32(i));
    ToIntOfEncoded(Wrap32(i), 4);
  }

  lemma Int32Wraps(i: Int32)
    ensures Wrap32(i) < TWO_32 && ToInt32(Wrap32(i)) == i
  {
  }

  /** Kind and address belong together. */
  predicate Matching(t: Transaction)
  {
    match t.kind
    case NullTransaction => false
    case ContractCreation => t.to == 0
    case MessageCall => t.to != VOTE_ADDRESS
    case VoteMessage => t.to == VOTE_ADDRESS
  }

  lemma ToReadBack(t: Transaction)
    requires !t.kind.NullTransaction?
    ensures |ToField(t)| < LENGTH_LIMIT
    ensures var e := EncodeData(ToField(t));
      && Whole(e) && ReadTo(e).Some?
      && (ReadTo(e).value == (t.kind, t.to) <==> Matching(t))
  {
    EncodedWhole(ToField(t));
    if !t.kind.ContractCreation? {
      AddressPower(8 * ADDRESS_BYTES);
      FromToBE(t.to, ADDRESS_BYTES);
    }
  }

  /** The items the constructor sees of an encoded transaction. */
  lemma ItemsOf(t: Transaction)
    requires Sized(t) && t.vrs.Some?
    ensures TotalSize(SignedFields(t)) < LENGTH_LIMIT
    ensures ReadList(EncodeList(EncodeAll(SignedFields(t)))) == Some(Encoded(SignedFields(t)))
    ensures forall i :: 0 <= i < 9 ==> Writes(SignedFields(t)[i], Encoded(SignedFields(t))[i])
  {
    SignedSize(t);
    ReadEncoded(SignedFields(t));
    forall i | 0 <= i < 9 ensures Writes(SignedFields(t)[i], Encoded(SignedFields(t))[i])
    {
      EncodedAt(SignedFields(t), i);
    }
  }

  /** Chain id and signature are recovered from `v` exactly in these cases. */
  predicate Recoverable(chainId: int, sig: Signature, cheap: bool)
  {
    if IsZero(sig) then sig.v == 0 else chainId >= 0 && sig.v <= 1 && (cheap ==> IsValid(sig))
  }

  lemma VRecovered(chainId: Int32, sig: Signature, v: Int32)
    requires v == if IsZero(sig) then chainId else VOffset(chainId, sig.v)
    ensures ReadSignature(v, sig.r, sig.s) == Some((chainId, sig)) <==> Recoverable(chainId, sig, false)
  {
  }

  /** What `v` carries comes back through the 32-bit conversions. */
  lemma SignatureReadBack(t: Transaction, cheap: bool)
    requires t.vrs.Some? && (!IsZero(t.vrs.value) ==> FitsInt(VOffset(t.chainId, t.vrs.value.v)))
    ensures var sig := t.vrs.value;
      && |Compact(WrittenV(t))| < LENGTH_LIMIT && |Compact(sig.r)| < LENGTH_LIMIT && |Compact(sig.s)| < LENGTH_LIMIT
      && var dv, dr, ds := EncodeData(Compact(WrittenV(t))), EncodeData(Compact(sig.r)), EncodeData(Compact(sig.s));
      && Whole(dv) && Whole(dr) && Whole(ds)
      && (ReadSigned(dv, dr, ds, cheap) == Some((t.chainId, sig)) <==> Recoverable(t.chainId, sig, cheap))
  {
    var sig := t.vrs.value;
    var v: Int32 := if IsZero(sig) then t.chainId else VOffset(t.chainId, sig.v);
    assert WrittenV(t) == Wrap32(v);
    UnsignedReadBack(v);
    WordReadBack(sig.r);
    WordReadBack(sig.s);
    VRecovered(t.chainId, sig, v);
    CheckedSignature(EncodeData(Compact(WrittenV(t))), EncodeData(Compact(sig.r)), EncodeData(Compact(sig.s)), cheap, v, sig);
  }

  lemma CheckedSignature(dv: Bytes, dr: Bytes, ds: Bytes, cheap: bool, v: Int32, sig: Signature)
    requires Whole(dv) && Whole(dr) && Whole(ds) && ReadWord(dr) == Some(sig.r) && ReadWord(ds) == Some(sig.s)
    requires ToInt(dv, 4).Some? && ToInt(dv, 4).value < TWO_32 && ToInt32(ToInt(dv, 4).value) == v
    ensures ReadSigned(dv, dr, ds, cheap) ==
      var res := ReadSignature(v, sig.r, sig.s);
      if cheap && res.Some? && !IsZero(res.value.1) && !IsValid(res.value.1) then None else res
  {
  }

  /** A signed transaction whose `v` fits an `int` comes back unchanged exactly when its kind agrees
      with its address and, for a real signature, its chain id is not negative, its recovery id is
      0 or 1 and it passes the check asked for; for the zero signature, when its `v` is 0. */
  lemma RoundTrip(t: Transaction, cheap: bool)
    requires Sized(t) && !t.kind.NullTransaction? && t.vrs.Some?
    requires !IsZero(t.vrs.value) ==> FitsInt(VOffset(t.chainId, t.vrs.value.v))
    ensures var sig := t.vrs.value;
      Encode(t).Some? &&
      (Decode(Encode(t).value, cheap) == Some(t) <==> Matching(t) && Recoverable(t.chainId, sig, cheap))
  {
    ItemsOf(t);
    var items, sig := Encoded(SignedFields(t)), t.vrs.value;
    WordReadBack(t.nonce);
    WordReadBack(t.gasPrice);
    WordReadBack(t.gas);
    WordReadBack(t.value);
    ToReadBack(t);
    EncodedWhole(t.data);
    SignatureReadBack(t, cheap);
    FieldsOf(t);
    assert Decode(Encode(t).value, cheap) == FromItems(items, cheap);
  }

  lemma FieldsOf(t: Transaction)
    requires t.vrs.Some?
    ensures var f := SignedFields(t);
      && f[0] == Compact(t.nonce) && f[1] == Compact(t.gasPrice) && f[2] == Compact(t.gas) && f[3] == ToField(t)
      && f[4] == Compact(t.value) && f[5] == t.data
      && f[6] == Compact(WrittenV(t)) && f[7] == Compact(t.vrs.value.r) && f[8] == Compact(t.vrs.value.s)
  {
  }

  // ---- The signing payload ----

  /** The receiver as far as it is written. */
  function Receiver(t: Transaction): (r: Option<Address>)
  {
    if t.kind.MessageCall? || t.kind.VoteMessage? then Some(t.to) else None
  }

  predicate SameContent(a: Transaction, b: Transaction)
  {
    && a.nonce == b.nonce && a.gasPrice == b.gasPrice && a.gas == b.gas && Receiver(a) == Receiver(b)
    && a.value == b.value && a.data == b.data
  }

  lemma BasicInjective(a: Transaction, b: Transaction)
    ensures BasicFields(a) == BasicFields(b) <==> SameContent(a, b)
  {
    var f, g := BasicFields(a), BasicFields(b);
    if f == g {
      assert f[0] == g[0] && f[1] == g[1] && f[2] == g[2] && f[3] == g[3] && f[4] == g[4] && f[5] == g[5];
      CompactInjective(a.nonce, b.nonce);
      CompactInjective(a.gasPrice, b.gasPrice);
      CompactInjective(a.gas, b.gas);
      CompactInjective(a.value, b.value);
      if Receiver(a).Some? && Receiver(b).Some? {
        AddressPower(8 * ADDRESS_BYTES);
        FromToBE(a.to, ADDRESS_BYTES);
        FromToBE(b.to, ADDRESS_BYTES);
      }
    }
  }

  /** Two transactions have the same bytes to sign exactly when they say the same and name the same
      chain: the six-item and nine-item forms never meet, and all chain ids up to 0 are one. */
  lemma SigningInjective(a: Transaction, b: Transaction)
    requires Sized(a) && Sized(b) && !a.kind.NullTransaction? && !b.kind.NullTransaction?
    ensures SigningPayload(a) == SigningPayload(b) <==>
      SameContent(a, b) && (a.chainId == b.chainId || (a.chainId <= 0 && b.chainId <= 0))
  {
    SigningSize(a);
    SigningSize(b);
    BasicInjective(a, b);
    var f, g := SigningFields(a), SigningFields(b);
    if SigningPayload(a) == SigningPayload(b) {
      ListInjective(f, g);
      assert f[..6] == BasicFields(a) && g[..6] == BasicFields(b);
      if a.chainId > 0 {
        assert f[6] == g[6];
        CompactInjective(a.chainId, b.chainId);
      }
    }
  }

  // ---- What the bytes say ----

  /** Item 3 of a list: nothing for a creation, otherwise the twenty bytes of the receiver. */
  ghost predicate SaysTo(d: Bytes, t: Transaction)
  {
    && Whole(d) && IsData(d)
    && if t.kind.ContractCreation? then Payload(d) == [] else |Payload(d)| == 20 && FromBE(Payload(d)) == t.to
  }

  /** An item that reads as this number, of at most 32 bytes. */
  ghost predicate SaysNumber(d: Bytes, n: nat)
  {
    Whole(d) && ToInt(d, 32) == Some(n)
  }

  /** The items both forms start with: nonce, gas price, gas, receiver, value, data. */
  ghost predicate SaysBasic(items: seq<Bytes>, t: Transaction)
  {
    && |items| >= 6 && SaysNumber(items[0], t.nonce) && SaysNumber(items[1], t.gasPrice) && SaysNumber(items[2], t.gas)
    && SaysTo(items[3], t) && SaysNumber(items[4], t.value)
    && Whole(items[5]) && IsData(items[5]) && Payload(items[5]) == t.data
  }

  lemma WordSaid(w: Word, item: Bytes)
    requires Writes(Compact(w), item)
    ensures SaysNumber(item, w)
  {
    WordSize(w);
    ToIntOfEncoded(w, 32);
  }

  lemma ToSaid(t: Transaction, item: Bytes)
    requires !t.kind.NullTransaction? && Writes(ToField(t), item)
    ensures SaysTo(item, t)
  {
    EncodedWhole(ToField(t));
    if !t.kind.ContractCreation? {
      AddressPower(8 * ADDRESS_BYTES);
      FromToBE(t.to, ADDRESS_BYTES);
    }
  }

  /** A list of encoded fields is read back with one item for each. */
  lemma FieldsRead(fields: seq<Bytes>) returns (items: seq<Bytes>)
    requires TotalSize(fields) < LENGTH_LIMIT
    ensures ReadList(EncodeList(EncodeAll(fields))) == Some(items) && |items| == |fields|
    ensures forall i :: 0 <= i < |fields| ==> Writes(fields[i], items[i])
  {
    ReadEncoded(fields);
    items := Encoded(fields);
    forall i | 0 <= i < |fields| ensures Writes(fields[i], items[i])
    {
      EncodedAt(fields, i);
    }
  }

  lemma BasicSaid(t: Transaction, items: seq<Bytes>)
    requires !t.kind.NullTransaction? && |items| >= 6
    requires Writes(Compact(t.nonce), items[0]) && Writes(Compact(t.gasPrice), items[1]) && Writes(Compact(t.gas), items[2])
    requires Writes(ToField(t), items[3]) && Writes(Compact(t.value), items[4]) && Writes(t.data, items[5])
    ensures SaysBasic(items, t)
  {
    WordSaid(t.nonce, items[0]);
    WordSaid(t.gasPrice, items[1]);
    WordSaid(t.gas, items[2]);
    ToSaid(t, items[3]);
    WordSaid(t.value, items[4]);
    EncodedWhole(t.data);
  }

  /** The bytes to sign are a list that says nonce, gas price, gas, receiver, value and data, and for a
      chain id above 0 behind them the chain id and two zeros, in this order. */
  lemma SigningPayloadSays(t: Transaction) returns (items: seq<Bytes>)
    requires Sized(t) && !t.kind.NullTransaction?
    ensures ReadList(SigningPayload(t)) == Some(items) && SaysBasic(items, t)
    ensures t.chainId <= 0 ==> |items| == 6
    ensures t.chainId > 0 ==> |items| == 9 && SaysNumber(items[6], t.chainId) && SaysNumber(items[7], 0) && SaysNumber(items[8], 0)
  {
    SigningSize(t);
    var fields := SigningFields(t);
    items := FieldsRead(fields);
    SigningItems(t, fields);
    assert Writes(fields[0], items[0]) && Writes(fields[1], items[1]) && Writes(fields[2], items[2]);
    assert Writes(fields[3], items[3]) && Writes(fields[4], items[4]) && Writes(fields[5], items[5]);
    BasicSaid(t, items);
    if t.chainId > 0 {
      var id: Word, zero: Word := t.chainId, 0;
      assert Writes(fields[6], items[6]) && Writes(fields[7], items[7]) && Writes(fields[8], items[8]);
      WordSaid(id, items[6]);
      WordSaid(zero, items[7]);
      WordSaid(zero, items[8]);
    }
  }

  lemma SigningItems(t: Transaction, fields: seq<Bytes>)
    requires fields == SigningFields(t)
    ensures |fields| >= 6 && fields[..6] == BasicFields(t)
    ensures fields[0] == Compact(t.nonce) && fields[1] == Compact(t.gasPrice) && fields[2] == Compact(t.gas) && fields[3] == ToField(t)
    ensures fields[4] == Compact(t.value) && fields[5] == t.data
    ensures |fields| == if t.chainId > 0 then 9 else 6
    ensures t.chainId > 0 ==> var id: nat, zero: nat := t.chainId, 0; fields[6] == Compact(id) && fields[7] == fields[8] == Compact(zero)
  {
  }

  /** The signed form says the same and then `v`, `r` and `s`: for a real signature `v` is 35 and twice
      the chain id and the recovery id (EIP-155), for the zero signature the chain id. */
  lemma EncodingSays(t: Transaction) returns (items: seq<Bytes>)
    requires Sized(t) && !t.kind.NullTransaction? && t.vrs.Some?
    ensures Encode(t).Some? && ReadList(Encode(t).value) == Some(items) && |items| == 9 && SaysBasic(items, t)
    ensures SaysNumber(items[7], t.vrs.value.r) && SaysNumber(items[8], t.vrs.value.s)
    ensures var sig := t.vrs.value;
      var v := if sig.r == 0 && sig.s == 0 then t.chainId else 35 + 2 * t.chainId + sig.v;
      SaysNumber(items[6], v % 0x1_0000_0000)
  {
    SignedSize(t);
    FieldsOf(t);
    var fields := SignedFields(t);
    items := FieldsRead(fields);
    assert Writes(fields[0], items[0]) && Writes(fields[1], items[1]) && Writes(fields[2], items[2]);
    assert Writes(fields[3], items[3]) && Writes(fields[4], items[4]) && Writes(fields[5], items[5]);
    assert Writes(fields[6], items[6]) && Writes(fields[7], items[7]) && Writes(fields[8], items[8]);
    BasicSaid(t, items);
    var v := VSaid(t, items[6]);
    WordSaid(t.vrs.value.r, items[7]);
    WordSaid(t.vrs.value.s, items[8]);
  }

  lemma VSaid(t: Transaction, item: Bytes) returns (v: int)
    requires t.vrs.Some? && Writes(Compact(WrittenV(t)), item)
    ensures v == (if t.vrs.value.r == 0 && t.vrs.value.s == 0 then t.chainId else 35 + 2 * t.chainId + t.vrs.value.v)
    ensures SaysNumber(item, v % 0x1_0000_0000)
  {
    v := if t.vrs.value.r == 0 && t.vrs.value.s == 0 then t.chainId else 35 + 2 * t.chainId + t.vrs.value.v;
    WordSaid(WrittenV(t), item);
  }

  // ---- Only one encoding ----

  /** Re-encoding what was read gives the same bytes, except that the empty list is read like an
      empty receiver. */
  lemma Canonical(bytes: Bytes, cheap: bool)
    requires |bytes| <= INT63_MAX && Decode(bytes, cheap).Some?
    ensures var t := Decode(bytes, cheap).value; var items := ReadList(bytes).value;
      Sized(t) && (Encode(t) == Some(bytes) <==> items[3] != [0xc0])
  {
    var t, items := Decode(bytes, cheap).value, ReadList(bytes).value;
    ItemWithin(bytes, 5);
    DecodedFrom(items, cheap, t);
    ItemsCanonical(items, cheap, t);
    CanonicalItems(bytes, items, t);
  }

  lemma DecodedFrom(items: seq<Bytes>, cheap: bool, t: Transaction)
    requires |items| == 9 && (forall i :: 0 <= i < 9 ==> Whole(items[i])) && FromItems(items, cheap) == Some(t)
    ensures ReadFrom(items, cheap, t) && !t.kind.NullTransaction?
  {
  }

  lemma CanonicalItems(bytes: Bytes, items: seq<Bytes>, t: Transaction)
    requires ReadList(bytes) == Some(items) && |items| == 9
    requires !t.kind.NullTransaction? && t.vrs.Some? && Sized(t) && SameItems(items, t)
    ensures Encode(t) == Some(bytes) <==> items[3] != [0xc0]
  {
    EncodedItems(items, t);
    ItemsOf(t);
    if items[3] != [0xc0] { Rebuilt(bytes, t); }
  }

  lemma ItemWithin(bytes: Bytes, i: nat)
    requires ReadList(bytes).Some? && i < |ReadList(bytes).value|
    ensures |ReadList(bytes).value[i]| <= |bytes|
  {
    SplitJoins(Payload(bytes));
    ItemSizes(ReadList(bytes).value);
  }

  lemma Rebuilt(bytes: Bytes, t: Transaction)
    requires Sized(t) && t.vrs.Some? && TotalSize(SignedFields(t)) < LENGTH_LIMIT
    requires ReadList(bytes) == Some(Encoded(SignedFields(t)))
    ensures EncodeList(EncodeAll(SignedFields(t))) == bytes
  {
    ListCanonical(bytes);
    SplitJoins(Payload(bytes));
    JoinEncoded(SignedFields(t));
  }

  ghost predicate Writes(field: Bytes, item: Bytes)
  {
    |field| < LENGTH_LIMIT && EncodeData(field) == item
  }

  /** The items of `t` are those read, but for a receiver given as an empty list. */
  ghost predicate SameItems(items: seq<Bytes>, t: Transaction)
    requires |items| == 9 && t.vrs.Some?
  {
    && Writes(Compact(t.nonce), items[0]) && Writes(Compact(t.gasPrice), items[1]) && Writes(Compact(t.gas), items[2])
    && Writes(ToField(t), if items[3] == [0xc0] then [0x80] else items[3])
    && Writes(Compact(t.value), items[4]) && Writes(t.data, items[5]) && Writes(Compact(WrittenV(t)), items[6])
    && Writes(Compact(t.vrs.value.r), items[7]) && Writes(Compact(t.vrs.value.s), items[8])
  }

  lemma EncodedItems(items: seq<Bytes>, t: Transaction)
    requires |items| == 9 && t.vrs.Some? && Sized(t) && SameItems(items, t)
    ensures TotalSize(SignedFields(t)) < LENGTH_LIMIT && (Encoded(SignedFields(t)) == items <==> items[3] != [0xc0])
  {
    ItemsOf(t);
    FieldsOf(t);
    var ours := Encoded(SignedFields(t));
    forall i | 0 <= i < 9 ensures Writes(SignedFields(t)[i], ours[i]) {
    }
    assert ours[3] == if items[3] == [0xc0] then [0x80] else items[3];
    NineItems(ours, items);
  }

  lemma NineItems(a: seq<Bytes>, b: seq<Bytes>)
    requires |a| == |b| == 9 && a[0] == b[0] && a[1] == b[1] && a[2] == b[2] && a[4] == b[4]
    requires a[5] == b[5] && a[6] == b[6] && a[7] == b[7] && a[8] == b[8]
    ensures a == b <==> a[3] == b[3]
  {
  }

  /** A payload that is cut into these items. */
  ghost predicate Cut(payload: Bytes, items: seq<Bytes>)
  {
    SplitItems(payload) == Some(items)
  }

  /** One item of a single byte, 0x80 or 0xc0, before others. */
  lemma CutShort(b: Byte, rest: Bytes, items: seq<Bytes>) returns (payload: Bytes, all: seq<Bytes>)
    requires (b == 0x80 || b == 0xc0) && Cut(rest, items)
    ensures |payload| == 1 + |rest| && |all| == 1 + |items| && Cut(payload, all)
    ensures all[0] == [b] && forall j :: 0 <= j < |items| ==> all[j + 1] == items[j]
  {
    payload, all := [b] + rest, [[b]] + items;
    assert payload[..1] == [b] && payload[1..] == rest;
  }

  /** Three more empty items in front. */
  lemma CutThree(rest: Bytes, items: seq<Bytes>) returns (payload: Bytes, all: seq<Bytes>)
    requires Cut(rest, items)
    ensures |payload| == 3 + |rest| && |all| == 3 + |items| && Cut(payload, all)
    ensures all[0] == all[1] == all[2] == [0x80] && forall j :: 0 <= j < |items| ==> all[j + 3] == items[j]
  {
    var p1, a1 := CutShort(0x80, rest, items);
    var p2, a2 := CutShort(0x80, p1, a1);
    payload, all := CutShort(0x80, p2, a2);
    forall j | 0 <= j < |items| ensures all[j + 3] == items[j]
    {
      assert a1[j + 1] == items[j] && a2[j + 2] == a1[j + 1];
    }
  }

  /** Nine items, empty but for an empty list as the receiver. */
  lemma NineEmpties() returns (payload: Bytes, items: seq<Bytes>)
    ensures |payload| == 9 && |items| == 9 && Cut(payload, items) && items[3] == [0xc0]
    ensures forall i :: 0 <= i < 9 && i != 3 ==> items[i] == [0x80]
  {
    var p3, a3 := CutThree([], []);
    var p4, a4 := CutShort(0x80, p3, a3);
    var p5, a5 := CutShort(0x80, p4, a4);
    var p6, a6 := CutShort(0xc0, p5, a5);
    payload, items := CutThree(p6, a6);
    assert items[3] == a6[0] && items[4] == a6[1] && items[5] == a6[2];
    assert items[6] == a6[3] && items[7] == a6[4] && items[8] == a6[5];
    assert a6[1] == a5[0] && a6[2] == a5[1] && a6[3] == a5[2] && a6[4] == a5[3] && a6[5] == a5[4];
    assert a5[1] == a4[0] && a5[2] == a4[1] && a5[3] == a4[2] && a5[4] == a4[3];
    assert a4[1] == a3[0] && a4[2] == a3[1] && a4[3] == a3[2];
  }

  /** What the constructor makes of an empty item. */
  lemma EmptyItem(d: Bytes)
    requires d == [0x80]
    ensures Whole(d) && IsData(d) && Payload(d) == [] && ReadWord(d) == Some(0) && ToInt(d, 4) == Some(0)
  {
  }

  lemma EmptyListTo(d: Bytes)
    requires d == [0xc0]
    ensures Whole(d) && ReadTo(d) == Some((ContractCreation, 0))
  {
  }

  lemma ShortList(payload: Bytes)
    requires |payload| == 9
    ensures var bytes := [0xc9] + payload; Whole(bytes) && bytes[0] >= LIST && Payload(bytes) == payload
  {
  }

  /** Ten bytes that are read as a transaction and written back differently. */
  lemma NotCanonical() returns (bytes: Bytes)
    ensures |bytes| == 10 && Decode(bytes, true).Some?
    ensures var t := Decode(bytes, true).value; Sized(t) && Encode(t).Some? && Encode(t) != Some(bytes)
  {
    var payload, items := NineEmpties();
    bytes := [0xc9] + payload;
    ShortList(payload);
    EmptyItem(items[0]);
    EmptyListTo(items[3]);
    assert ReadList(bytes) == Some(items);
    var none: Word := 0;
    assert ReadSigned(items[6], items[7], items[8], true) == Some((0, Signature(none, none, 0)));
    assert Decode(bytes, true) == FromItems(items, true);
    Canonical(bytes, true);
  }

  lemma {:induction false} ItemSizes(items: seq<Bytes>)
    ensures forall i :: 0 <= i < |items| ==> |items[i]| <= |Join(items)|
  {
    if items != [] { ItemSizes(items[1..]); }
  }

  lemma {:induction false} JoinEncoded(fields: seq<Bytes>)
    requires TotalSize(fields) < LENGTH_LIMIT
    ensures Join(Encoded(fields)) == EncodeAll(fields)
  {
    if fields != [] { JoinEncoded(fields[1..]); }
  }

  /** What the constructor has read from each item. */
  ghost predicate ReadFrom(items: seq<Bytes>, cheap: bool, t: Transaction)
    requires |items| == 9 && forall i :: 0 <= i < 9 ==> Whole(items[i])
  {
    && ReadWord(items[0]) == Some(t.nonce) && ReadWord(items[1]) == Some(t.gasPrice) && ReadWord(items[2]) == Some(t.gas)
    && ReadTo(items[3]) == Some((t.kind, t.to)) && ReadWord(items[4]) == Some(t.value)
    && IsData(items[5]) && t.data == Payload(items[5])
    && t.vrs.Some? && ReadSigned(items[6], items[7], items[8], cheap) == Some((t.chainId, t.vrs.value))
  }

  lemma ItemsCanonical(items: seq<Bytes>, cheap: bool, t: Transaction)
    requires |items| == 9 && forall i :: 0 <= i < 9 ==> Whole(items[i])
    requires ReadFrom(items, cheap, t) && |items[5]| <= INT63_MAX
    ensures Sized(t) && SameItems(items, t)
  {
    WordCanonical(items[0], t.nonce);
    WordCanonical(items[1], t.gasPrice);
    WordCanonical(items[2], t.gas);
    WordCanonical(items[4], t.value);
    DataCanonical(items[5]);
    SignatureCanonical(items[6], items[7], items[8], cheap, t);
    ToCanonical(items[3], t);
  }

  lemma WordCanonical(d: Bytes, w: Word)
    requires Whole(d) && ReadWord(d) == Some(w)
    ensures Writes(Compact(w), d)
  {
    IntCanonical(d, 32);
  }

  lemma SignatureCanonical(dv: Bytes, dr: Bytes, ds: Bytes, cheap: bool, t: Transaction)
    requires Whole(dv) && Whole(dr) && Whole(ds) && ReadSigned(dv, dr, ds, cheap).Some?
    requires t.vrs.Some? && ReadSigned(dv, dr, ds, cheap).value == (t.chainId, t.vrs.value)
    ensures Writes(Compact(WrittenV(t)), dv) && Writes(Compact(t.vrs.value.r), dr) && Writes(Compact(t.vrs.value.s), ds)
  {
    IntCanonical(dv, 4);
    WordCanonical(dr, t.vrs.value.r);
    WordCanonical(ds, t.vrs.value.s);
    PayloadBound(dv, 4);
    VRestored(ToInt(dv, 4).value, t);
  }

  lemma VRestored(n: nat, t: Transaction)
    requires n < TWO_32 && t.vrs.Some?
    requires ReadSignature(ToInt32(n), t.vrs.value.r, t.vrs.value.s) == Some((t.chainId, t.vrs.value))
    ensures WrittenV(t) == n
  {
  }

  lemma ToCanonical(d: Bytes, t: Transaction)
    requires Whole(d) && ReadTo(d).Some? && ReadTo(d).value == (t.kind, t.to)
    ensures Writes(ToField(t), if d == [0xc0] then [0x80] else d)
  {
    if IsEmpty(d) {
      assert |d| == 1;
    } else {
      DataCanonical(d);
      ToFromBE(Payload(d));
    }
  }

  // ---- The stream ----

  lemma {:induction false} EncodeSnoc(fields: seq<Bytes>, f: Bytes)
    requires TotalSize(fields) + |f| + 9 < LENGTH_LIMIT
    ensures TotalSize(fields + [f]) == TotalSize(fields) + |f| + 9
    ensures EncodeAll(fields + [f]) == EncodeAll(fields) + EncodeData(f)
  {
    if fields == [] {
      assert fields + [f] == [f] && [f][1..] == [];
    } else {
      assert (fields + [f])[1..] == fields[1..] + [f];
      EncodeSnoc(fields[1..], f);
    }
  }

  /** The stream holds the first items of a list of `n`. */
  ghost predicate Partly(s: RLPStream, outer: Frames, n: nat, done: seq<Bytes>)
    reads s
  {
    && s.Valid() && |done| < n && TotalSize(done) < LENGTH_LIMIT
    && s.frames == Inside(outer, n - |done|, EncodeAll(done))
  }

  /** Room for a list of fields of this total size. */
  ghost predicate Room(outer: Frames, total: nat)
  {
    Size(outer) + total + 9 < TWO_64 && total < LENGTH_LIMIT
  }

  lemma {:induction false} PrefixTotal(fields: seq<Bytes>, k: nat)
    requires k < |fields|
    ensures TotalSize(fields[..k]) + |fields[k]| + 9 <= TotalSize(fields)
  {
    if k > 0 {
      assert fields[..k][1..] == fields[1..][..k - 1];
      PrefixTotal(fields[1..], k - 1);
    }
  }

  /** An item as the stream gets it: a number, or bytes. */
  datatype Item = Number(i: nat) | Raw(s: Bytes)

  function Content(item: Item): (s: Bytes)
  {
    match item
    case Number(i) => Compact(i)
    case Raw(s) => s
  }

  predicate Streamable(item: Item)
  {
    item.Number? ==> A.ByteLength(item.i) < TWO_32
  }

  method Append(s: RLPStream, item: Item)
    requires s.Valid() && Streamable(item) && Fits(s.frames, |Content(item)| + 9)
    modifies s
    ensures s.Valid() && s.frames == Put(old(s.frames), EncodeData(Content(item)))
  {
    match item
    case Number(i) => s.AppendInt(i);
    case Raw(data) => s.AppendData(data);
  }

  /** These items are the fields from position `lo` on. */
  ghost predicate Supplies(items: seq<Item>, fields: seq<Bytes>, lo: nat)
  {
    && lo + |items| <= |fields|
    && forall j :: 0 <= j < |items| ==> Streamable(items[j]) && Content(items[j]) == fields[lo + j]
  }

  /** `k` of the fields are written; with all of them the list is complete. */
  ghost predicate Fed(s: RLPStream, outer: Frames, fields: seq<Bytes>, k: nat)
    reads s
  {
    if k < |fields| then Partly(s, outer, |fields|, fields[..k])
    else s.Valid() && Listed(outer, fields, s.frames)
  }

  /** `<<` for each of some items. */
  method Feed(s: RLPStream, items: seq<Item>, ghost outer: Frames, ghost fields: seq<Bytes>, ghost lo: nat)
    requires Supplies(items, fields, lo) && Fed(s, outer, fields, lo) && Room(outer, TotalSize(fields))
    modifies s
    ensures Fed(s, outer, fields, lo + |items|)
  {
    if items != [] {
      FeedRest(items, fields, lo);
      FeedOne(s, items[0], outer, fields, lo);
      Feed(s, items[1..], outer, fields, lo + 1);
    }
  }

  lemma FeedRest(items: seq<Item>, fields: seq<Bytes>, lo: nat)
    requires Supplies(items, fields, lo) && items != []
    ensures Supplies(items[1..], fields, lo + 1) && Streamable(items[0]) && Content(items[0]) == fields[lo]
  {
    var rest := items[1..];
    forall j | 0 <= j < |rest| ensures Streamable(rest[j]) && Content(rest[j]) == fields[lo + 1 + j]
    {
      assert rest[j] == items[j + 1];
    }
    assert Content(items[0]) == fields[lo + 0];
  }

  /** One more item; the last one closes the list. */
  method FeedOne(s: RLPStream, item: Item, ghost outer: Frames, ghost fields: seq<Bytes>, ghost k: nat)
    requires k < |fields| && Fed(s, outer, fields, k) && Room(outer, TotalSize(fields))
    requires Streamable(item) && Content(item) == fields[k]
    modifies s
    ensures Fed(s, outer, fields, k + 1)
  {
    PrefixTotal(fields, k);
    EncodeSnoc(fields[..k], fields[k]);
    assert fields[..k + 1] == fields[..k] + [fields[k]];
    if k + 1 == |fields| { assert fields[..k + 1] == fields; }
    Append(s, item);
  }

  /** One item has been added: the list of these fields. */
  ghost predicate Listed(outer: Frames, fields: seq<Bytes>, frames: Frames)
  {
    && TotalSize(fields) < LENGTH_LIMIT && Fits(outer, |EncodeList(EncodeAll(fields))|)
    && frames == Put(outer, EncodeList(EncodeAll(fields)))
  }

  /** The fields `streamRLP` writes. */
  function StreamFields(t: Transaction, sig: bool, forHash: bool): (f: seq<Bytes>)
    requires sig ==> t.vrs.Some?
    ensures |f| == if sig || forHash then 9 else 6
    ensures f[..6] == BasicFields(t)
  {
    if sig then SignedFields(t)
    else if forHash then
      var zero: nat := 0;
      BasicFields(t) + [Compact(Wrap32(t.chainId)), Compact(zero), Compact(zero)]
    else BasicFields(t)
  }

  /** The items of `streamRLP` in the order it appends them. */
  function BasicItems(t: Transaction): (items: seq<Item>)
  {
    [Number(t.nonce), Number(t.gasPrice), Number(t.gas), Raw(ToField(t)), Number(t.value), Raw(t.data)]
  }

  function ReplayItems(t: Transaction): (items: seq<Item>)
  {
    var zero: nat := 0;
    [Number(Wrap32(t.chainId)), Number(zero), Number(zero)]
  }

  function SignatureItems(t: Transaction): (items: seq<Item>)
    requires t.vrs.Some?
  {
    [Number(WrittenV(t)), Number(t.vrs.value.r), Number(t.vrs.value.s)]
  }

  lemma BasicSupplied(t: Transaction, fields: seq<Bytes>)
    requires |fields| >= 6 && fields[..6] == BasicFields(t)
    ensures Supplies(BasicItems(t), fields, 0)
  {
    WordSize(t.nonce);
    WordSize(t.gasPrice);
    WordSize(t.gas);
    WordSize(t.value);
    assert forall i :: 0 <= i < 6 ==> fields[i] == fields[..6][i];
  }

  lemma SignatureSupplied(t: Transaction)
    requires t.vrs.Some?
    ensures Supplies(SignatureItems(t), SignedFields(t), 6)
  {
    UnsignedSize(WrittenV(t));
    WordSize(t.vrs.value.r);
    WordSize(t.vrs.value.s);
  }

  lemma ReplaySupplied(t: Transaction)
    ensures Supplies(ReplayItems(t), StreamFields(t, false, true), 6)
  {
    var zero: nat := 0;
    UnsignedSize(Wrap32(t.chainId));
    UnsignedSize(zero);
  }

  /** `streamRLP`.  A missing signature is noticed when the first six items are already out. */
  method StreamRLP(s: RLPStream, t: Transaction, sig: bool, forHash: bool) returns (ok: bool)
    requires s.Valid() && Room(s.frames, |t.data| + 500)
    modifies s
    ensures ok == (t.kind.NullTransaction? || !sig || t.vrs.Some?)
    ensures ok && t.kind.NullTransaction? ==> s.Valid() && s.frames == old(s.frames)
    ensures ok && !t.kind.NullTransaction? ==> s.Valid() && Listed(old(s.frames), StreamFields(t, sig, forHash), s.frames)
  {
    if t.kind.NullTransaction? { return true; }
    ghost var outer := s.frames;
    ghost var fields := if sig && t.vrs.None? then StreamFields(t, false, true) else StreamFields(t, sig, forHash);
    StreamSize(t, sig, forHash);
    BasicSupplied(t, fields);
    s.AppendList(if sig || forHash then 9 else 6);
    assert fields[..0] == [];
    Feed(s, BasicItems(t), outer, fields, 0);
    if sig {
      if t.vrs.None? { return false; }
      SignatureSupplied(t);
      Feed(s, SignatureItems(t), outer, fields, 6);
    } else if forHash {
      ReplaySupplied(t);
      Feed(s, ReplayItems(t), outer, fields, 6);
    }
    return true;
  }

  lemma StreamSize(t: Transaction, sig: bool, forHash: bool)
    requires |t.data| + 500 < LENGTH_LIMIT
    ensures TotalSize(if sig && t.vrs.None? then StreamFields(t, false, true) else StreamFields(t, sig, forHash)) <= |t.data| + 500
  {
    BasicSize(t);
    if sig && t.vrs.Some? {
      SignedSize(t);
    } else if sig || forHash {
      var zero: nat := 0;
      UnsignedSize(Wrap32(t.chainId));
      UnsignedSize(zero);
      TotalAppend(BasicFields(t), [Compact(Wrap32(t.chainId)), Compact(zero), Compact(zero)]);
      TotalOf3(Compact(Wrap32(t.chainId)), Compact(zero), Compact(zero));
    }
  }

  lemma ListedAlone(fields: seq<Bytes>, frames: Frames)
    requires Listed(Written([]), fields, frames)
    ensures frames == Written(EncodeList(EncodeAll(fields)))
  {
    assert [] + EncodeList(EncodeAll(fields)) == EncodeList(EncodeAll(fields));
  }

  /** `rlp()`: the bytes of the signed transaction, or nothing when it is unsigned. */
  method Serialize(t: Transaction) returns (r: Option<Bytes>)
    requires Sized(t)
    ensures r == Encode(t)
  {
    var s := new RLPStream();
    var ok := StreamRLP(s, t, true, false);
    if !ok { return None; }
    if !t.kind.NullTransaction? { ListedAlone(SignedFields(t), s.frames); }
    return Some(s.out);
  }

  /** The bytes that `sha3(WithoutSignature)` hashes. */
  method SigningBytes(t: Transaction) returns (r: Bytes)
    requires Sized(t)
    ensures r == SigningPayload(t)
  {
    var s := new RLPStream();
    var ok := StreamRLP(s, t, false, t.chainId > 0);
    if !t.kind.NullTransaction? {
      assert StreamFields(t, false, t.chainId > 0) == SigningFields(t);
      ListedAlone(SigningFields(t), s.frames);
    }
    return s.out;
  }
}
