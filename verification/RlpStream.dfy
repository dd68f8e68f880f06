/** `RLPStream`: lists are announced by their item count and closed, header inserted, when the last
    item arrives.
 */
module RlpStreams {
  import opened Words
  import opened Hosts
  import opened Rlp
  import A = Alu

  /** What has been written: whole items, and inside them lists still open, each with the number of
      items it lacks and those it has. */
  datatype Frames = Written(bytes: Bytes) | Inside(outer: Frames, left: nat, body: Bytes)

  /** Add one item; a list that becomes complete is itself an item of the list around it. */
  function Put(fr: Frames, item: Bytes): (r: Frames)
    requires Fits(fr, |item|)
  {
    match fr
    case Written(bytes) => Written(bytes + item)
    case Inside(outer, left, body) =>
      if left > 1 then Inside(outer, left - 1, body + item) else Put(outer, EncodeList(body + item))
  }

  /** Add bytes that make up `count` items, if the innermost list lacks as many. */
  function PutRaw(fr: Frames, bytes: Bytes, count: nat): (r: Option<Frames>)
    requires Fits(fr, |bytes|)
  {
    match fr
    case Written(w) => Some(Written(w + bytes))
    case Inside(outer, left, body) =>
      if left < count then None
      else if left > count then Some(Inside(outer, left - count, body + bytes))
      else Some(Put(outer, EncodeList(body + bytes)))
  }

  function Size(fr: Frames): (n: nat)
  {
    match fr
    case Written(bytes) => |bytes|
    case Inside(outer, _, body) => Size(outer) + |body| + 9
  }

  /** Room for `n` more bytes and all headers still to come. */
  predicate Fits(fr: Frames, n: nat)
  {
    Size(fr) + n < TWO_64
  }

  /** The bytes written so far: those of open lists have no header yet. */
  function Flat(fr: Frames): (s: Bytes)
    ensures |s| <= Size(fr)
  {
    match fr
    case Written(bytes) => bytes
    case Inside(outer, _, body) => Flat(outer) + body
  }

  /** The stack of the sources: for each open list its missing items and where it starts. */
  ghost predicate Matches(stack: seq<(nat, nat)>, fr: Frames)
  {
    match fr
    case Written(_) => stack == []
    case Inside(outer, left, _) =>
      && |stack| > 0 && left > 0 && stack[|stack| - 1] == (left, |Flat(outer)|)
      && Matches(stack[..|stack| - 1], outer)
  }

  class RLPStream {
    var out: Bytes
    var listStack: seq<(nat, nat)>
    ghost var frames: Frames

    ghost predicate Valid()
      reads this
    {
      out == Flat(frames) && Matches(listStack, frames)
    }

    constructor ()
      ensures Valid() && frames == Written([])
    {
      out, listStack, frames := [], [], Written([]);
    }

    /** `appendList(count)`: a list without items is written at once. */
    method AppendList(count: nat)
      requires Valid() && (count == 0 ==> Fits(frames, 1))
      modifies this
      ensures Valid()
      ensures count > 0 ==> frames == Inside(old(frames), count, [])
      ensures count == 0 ==> Fits(old(frames), |EncodeList([])|) && frames == Put(old(frames), EncodeList([]))
    {
      if count == 0 {
        assert EncodeList([]) == [LIST];
        out := out + [LIST];
        NoteAppended([LIST]);
      } else {
        ghost var stack := listStack;
        listStack := listStack + [(count, |out|)];
        assert listStack[..|listStack| - 1] == stack;
        frames := Inside(frames, count, []);
      }
    }

    /** `append(bytesConstRef)`. */
    method AppendData(s: Bytes)
      requires Valid() && Fits(frames, |s| + 9)
      modifies this
      ensures Valid() && frames == Put(old(frames), EncodeData(s))
    {
      var e := DataBytes(s);
      out := out + e;
      NoteAppended(e);
    }

    /** `append(bigint)`: the compact form of a number, whatever its size. */
    method AppendInt(i: nat)
      requires A.ByteLength(i) < TWO_32 && Valid() && Fits(frames, A.ByteLength(i) + 9)
      modifies this
      ensures Valid() && frames == Put(old(frames), EncodeData(Compact(i)))
    {
      var e := IntBytes(i);
      out := out + e;
      NoteAppended(e);
    }

    /** `appendRaw(s, count)`: bytes that make up `count` items; it throws when the innermost list
        lacks fewer. */
    method AppendRaw(s: Bytes, count: nat) returns (ok: bool)
      requires Valid() && Fits(frames, |s|)
      modifies this
      ensures ok <==> PutRaw(old(frames), s, count).Some?
      ensures ok ==> Valid() && frames == PutRaw(old(frames), s, count).value
    {
      out := out + s;
      ok := NoteRaw(s, count);
    }

    /** `noteAppended(count)`: only the first list can be counted down by more than one. */
    method NoteRaw(ghost item: Bytes, count: nat) returns (ok: bool)
      requires out == Flat(frames) + item && Matches(listStack, frames) && Fits(frames, |item|)
      modifies this
      ensures ok <==> PutRaw(old(frames), item, count).Some?
      ensures ok ==> Valid() && frames == PutRaw(old(frames), item, count).value
    {
      if |listStack| == 0 {
        frames := Written(frames.bytes + item);
        return true;
      }
      var left := listStack[|listStack| - 1].0;
      if left < count { return false; }
      if left > count {
        CountDown(item, count);
      } else {
        ghost var closed := CloseList(item);
        NoteAppended(closed);
      }
      return true;
    }

    /** `noteAppended(1)`: the item just written counts for the innermost list; every list that
        is complete gets its header moved in before its first byte. */
    method NoteAppended(ghost item: Bytes)
      requires out == Flat(frames) + item && Matches(listStack, frames) && Fits(frames, |item|)
      modifies this
      ensures Valid() && frames == Put(old(frames), item)
    {
      ghost var it := item;
      while |listStack| > 0 && listStack[|listStack| - 1].0 == 1
        invariant Matches(listStack, frames) && out == Flat(frames) + it && Fits(frames, |it|)
        invariant Put(frames, it) == Put(old(frames), item)
        decreases |listStack|
      {
        it := CloseList(it);
      }
      if |listStack| == 0 {
        frames := Written(frames.bytes + it);
      } else {
        CountDown(it, 1);
      }
    }

    /** The innermost list is complete with these bytes. */
    method CloseList(ghost it: Bytes) returns (ghost closed: Bytes)
      requires Matches(listStack, frames) && out == Flat(frames) + it && Fits(frames, |it|) && |listStack| > 0
      modifies this
      ensures |listStack| == |old(listStack)| - 1
      ensures old(frames).Inside? && |old(frames).body + it| < TWO_64
      ensures frames == old(frames).outer && closed == EncodeList(old(frames).body + it)
      ensures Matches(listStack, frames) && out == Flat(frames) + closed && Fits(frames, |closed|)
    {
      var k := |listStack| - 1;
      var p := listStack[k].1;
      ghost var body := frames.body + it;
      listStack := listStack[..k];
      frames := frames.outer;
      assert out[..p] == Flat(frames) && out[p..] == body;
      closed := EncodeList(body);
      InsertHeader(p);
    }

    /** The bytes from `p` on become the payload of a list. */
    method InsertHeader(p: nat)
      requires p <= |out| && |out| - p < TWO_64
      modifies this`out
      ensures out == old(out)[..p] + EncodeList(old(out)[p..])
    {
      var header := ListHeader(|out| - p);
      out := out[..p] + header + out[p..];
    }

    /** The innermost list lacks `count` items less. */
    method CountDown(ghost it: Bytes, count: nat)
      requires Matches(listStack, frames) && out == Flat(frames) + it
      requires |listStack| > 0 && listStack[|listStack| - 1].0 > count
      modifies this`listStack, this`frames
      ensures Valid() && old(frames).Inside? && old(frames).left > count
      ensures frames == Inside(old(frames).outer, old(frames).left - count, old(frames).body + it)
    {
      var k := |listStack| - 1;
      var (left, p) := listStack[k];
      var rest := listStack[..k];
      listStack := rest + [(left - count, p)];
      assert listStack[..k] == rest;
      frames := Inside(frames.outer, frames.left - count, frames.body + it);
    }
  }

  method ListHeader(s: nat) returns (h: Bytes)
    requires s < TWO_64
    ensures h == Header(LIST, s)
  {
    if s < IMMEDIATE {
      h := [LIST + s];
    } else {
      h := PushCount(s, 0xf7);
    }
  }

  /** The bytes `append(bytesConstRef)` writes. */
  method DataBytes(s: Bytes) returns (e: Bytes)
    requires |s| < TWO_64
    ensures e == EncodeData(s)
  {
    if |s| == 1 && s[0] < DATA {
      e := s;
    } else if |s| < IMMEDIATE {
      e := [DATA + |s|] + s;
    } else {
      var count := PushCount(|s|, 0xb7);
      e := count + s;
    }
  }

  /** The bytes `append(bigint)` writes. */
  method IntBytes(i: nat) returns (e: Bytes)
    requires A.ByteLength(i) < TWO_32
    ensures e == EncodeData(Compact(i))
  {
    CompactSmall(i);
    if i == 0 {
      e := [DATA];
    } else if i < DATA {
      e := [i];
    } else {
      var br := BytesRequired(i);
      ByteLengthExact(i);
      LargeNumber(i);
      var digits := PushInt(i, br);
      if br < IMMEDIATE {
        e := [br + DATA] + digits;
      } else {
        var count := PushCount(br, 0xb7);
        e := count + digits;
      }
    }
  }

  lemma LargeNumber(i: nat)
    requires i >= DATA
    ensures |Compact(i)| == 1 ==> Compact(i)[0] >= DATA
  {
    if i >= 256 {
      assert A.ByteLength(i) == 1 + A.ByteLength(i / 256);
    }
    CompactSmall(i);
  }

  /** `pushCount`: the length of the length, then the length. */
  method PushCount(count: nat, zero: nat) returns (h: Bytes)
    requires IMMEDIATE <= count < TWO_64 && (zero == 0xb7 || zero == 0xf7)
    ensures h == Header(if zero == 0xb7 then DATA else LIST, count)
  {
    LengthBytes(count);
    ByteLengthExact(count);
    var br := BytesRequired(count);
    var digits := PushInt(count, br);
    h := [br + zero] + digits;
  }

  method BytesRequired(i: nat) returns (n: nat)
    ensures n == A.ByteLength(i)
  {
    n := 0;
    var v: nat := i;
    while v != 0
      invariant n + A.ByteLength(v) == A.ByteLength(i)
    {
      v := v / 256;
      n := n + 1;
    }
  }

  /** `pushInt`: digits from the last to the first, until nothing is left. */
  method PushInt(i: nat, br: nat) returns (s: Bytes)
    requires i < Pow2(8 * br)
    ensures s == ToBE(i, br)
  {
    var b := new Byte[br](_ => 0);
    var v: nat, k: nat := i, br;
    while v != 0
      invariant k <= br && v < Pow2(8 * k)
      invariant forall j :: 0 <= j < k ==> b[j] == 0
      invariant ToBE(i, br) == ToBE(v, k) + b[k..]
      decreases v
    {
      ghost var tail := b[k..];
      LastDigit(v, k, tail);
      b[k - 1] := v % 256;
      assert b[k - 1..] == [v % 256] + tail;
      v := v / 256;
      k := k - 1;
    }
    ZeroDigits(k);
    assert b[..] == b[..k] + b[k..];
    s := b[..];
  }

  lemma LastDigit(v: nat, k: nat, tail: Bytes)
    requires 0 < v < Pow2(8 * k)
    ensures k > 0 && v / 256 < Pow2(8 * (k - 1)) && ToBE(v, k) + tail == ToBE(v / 256, k - 1) + ([v % 256] + tail)
  {
    if k > 0 { Pow2Shift(8 * (k - 1)); }
  }

  lemma {:induction false} ZeroDigits(k: nat)
    ensures ToBE(0, k) == Zeros(k)
  {
    if k > 0 { ZeroDigits(k - 1); }
  }

  lemma CompactSmall(i: nat)
    ensures i < 256 ==> Compact(i) == if i == 0 then [] else [i]
  {
    if 0 < i < 256 {
      assert A.ByteLength(i / 256) == 0;
      assert Compact(i) == ToBE(i / 256, 0) + [i % 256];
    }
  }
}
