/** Code analysis: instruction boundaries, the JUMPDEST table and the two passes of
    `VM::optimize`, as functions on byte strings.
 */
module Code {
  import opened Words
  import opened Instructions
  import opened Machine

  const PADDING: nat := 33
  const POOL_LIMIT: nat := 65536

  /** The instruction after the one at `pc`; past the end of the code every byte is a STOP. */
  function NextPc(code: Bytes, pc: nat): (n: nat)
    ensures pc < n <= pc + 33
  {
    if pc < |code| then pc + 1 + PushLength(code[pc]) else pc + 1
  }

  /** `pc` is reached from `from` by stepping over whole instructions of the code. */
  predicate BoundaryFrom(code: Bytes, from: nat, pc: nat)
    decreases |code| - from
  {
    from == pc || (from < |code| && BoundaryFrom(code, NextPc(code, from), pc))
  }

  predicate Boundary(code: Bytes, pc: nat)
  {
    BoundaryFrom(code, 0, pc)
  }

  lemma {:induction false} BoundaryNextFrom(code: Bytes, from: nat, pc: nat)
    requires BoundaryFrom(code, from, pc) && pc < |code|
    ensures BoundaryFrom(code, from, NextPc(code, pc))
    decreases |code| - from
  {
    if from < |code| && from != pc {
      BoundaryNextFrom(code, NextPc(code, from), pc);
    }
  }

  lemma {:induction false} BoundaryOrder(code: Bytes, from: nat, pc: nat)
    requires BoundaryFrom(code, from, pc)
    ensures from <= pc && (from == pc || (from < |code| && NextPc(code, from) <= pc))
    decreases |code| - from
  {
    if from != pc { BoundaryOrder(code, NextPc(code, from), pc); }
  }

  lemma {:induction false} BoundaryTrans(code: Bytes, a: nat, b: nat, c: nat)
    requires BoundaryFrom(code, a, b) && BoundaryFrom(code, b, c)
    ensures BoundaryFrom(code, a, c)
    decreases |code| - a
  {
    if a != b { BoundaryTrans(code, NextPc(code, a), b, c); }
  }

  /** No boundary lies further than 32 bytes past the end. */
  lemma {:induction false} BoundaryLimit(code: Bytes, from: nat, pc: nat)
    requires BoundaryFrom(code, from, pc) && from <= |code| + 32
    ensures pc <= |code| + 32
    decreases |code| - from
  {
    if from != pc { BoundaryLimit(code, NextPc(code, from), pc); }
  }

  // ---- The JUMPDEST table ----

  /** A valid jump destination: a JUMPDEST at an instruction boundary (Yellow Paper 9.4.3). */
  predicate IsDest(code: Bytes, d: nat)
  {
    d < |code| && code[d] == JUMPDEST && Boundary(code, d)
  }

  function DestsFrom(code: Bytes, pc: nat): (r: seq<nat>)
    decreases |code| - pc
  {
    if pc >= |code| then []
    else (if code[pc] == JUMPDEST then [pc] else []) + DestsFrom(code, NextPc(code, pc))
  }

  ghost predicate Increasing(s: seq<nat>)
  {
    forall i, j :: 0 <= i < j < |s| ==> s[i] < s[j]
  }

  lemma {:induction false} DestsFromExact(code: Bytes, pc: nat)
    ensures forall d: nat :: d in DestsFrom(code, pc) <==> d < |code| && code[d] == JUMPDEST && BoundaryFrom(code, pc, d)
    ensures forall d: nat :: d in DestsFrom(code, pc) ==> pc <= d
    ensures Increasing(DestsFrom(code, pc))
    decreases |code| - pc
  {
    if pc < |code| {
      var n := NextPc(code, pc);
      DestsFromExact(code, n);
      forall d: nat | BoundaryFrom(code, n, d) ensures d != pc { BoundaryOrder(code, n, d); }
      var rest := DestsFrom(code, n);
      forall i | 0 <= i < |rest| ensures n <= rest[i] { assert rest[i] in rest; }
    }
  }

  /** The table holds exactly the JUMPDEST bytes that are instructions, in increasing order:
      bytes of push data never qualify. */
  lemma DestsExact(code: Bytes)
    ensures forall d: nat :: d in DestsFrom(code, 0) <==> IsDest(code, d)
    ensures Increasing(DestsFrom(code, 0))
  {
    DestsFromExact(code, 0);
  }

  // ---- First pass of `optimize`: user code cannot contain the synthetic opcodes ----

  predicate Synthetic(op: Byte)
  {
    op == PUSHC || op == JUMPC || op == JUMPCI
  }

  function Sanitized(code: Bytes): (s: Bytes)
    ensures |s| == |code|
    ensures forall i {:trigger s[i]} :: 0 <= i < |code| ==>
      s[i] == if Synthetic(code[i]) && Boundary(code, i) then UNDEFINED else code[i]
  {
    seq(|code|, i requires 0 <= i < |code| =>
      if Synthetic(code[i]) && Boundary(code, i) then UNDEFINED else code[i])
  }

  /** The code as `copyCode(33)` and the table pass leave it. */
  function Prepared(code: Bytes): (s: Bytes)
    ensures |s| == |code| + PADDING
  {
    Sanitized(code) + Zeros(PADDING)
  }

  /** Between an instruction and the next there is only push data. */
  lemma {:induction false} NoBoundaryInside(code: Bytes, from: nat, pc: nat, i: nat)
    requires BoundaryFrom(code, from, pc) && BoundaryFrom(code, from, i) && pc < i
    ensures pc < |code| && NextPc(code, pc) <= i
    decreases |code| - from
  {
    if from == pc {
      BoundaryOrder(code, pc, i);
    } else {
      BoundaryOrder(code, from, pc);
      NoBoundaryInside(code, NextPc(code, from), pc, i);
    }
  }

  lemma PushDataKept(code: Bytes, pc: nat)
    requires Boundary(code, pc) && pc < |code|
    ensures forall i :: pc < i < NextPc(code, pc) && i < |code| ==> Sanitized(code)[i] == code[i]
    ensures Boundary(code, NextPc(code, pc))
  {
    forall i | pc < i < NextPc(code, pc) && i < |code| ensures Sanitized(code)[i] == code[i]
    {
      if Boundary(code, i) { NoBoundaryInside(code, 0, pc, i); }
    }
    BoundaryNextFrom(code, 0, pc);
  }

  // ---- Second pass: constant pool and pre-verified jumps ----

  predicate Verified(dests: seq<nat>, d: nat)
  {
    d <= INT63_MAX && d in dests
  }

  function PushedAt(s: Bytes, pc: nat, n: nat): (v: Word)
    requires n <= 32 && pc + n < |s|
  {
    PushBound(s, pc + 1, n);
    BEAt(s, pc + 1, n)
  }

  lemma PushBound(s: Bytes, lo: nat, n: nat)
    requires n <= 32 && lo + n <= |s|
    ensures BEAt(s, lo, n) < TWO_256
  {
    BEAtBound(s, lo, n);
    Pow2Split(8 * n);
  }

  /** The constants that go to the pool, read off the code alone: those of the pushes of more than
      five bytes, in code order; data missing at the end reads as zeros. */
  function LongConstants(code: Bytes, pc: nat): (r: seq<Word>)
    decreases |code| - pc
  {
    if pc >= |code| then [] else LongAt(code, pc) + LongConstants(code, NextPc(code, pc))
  }

  function LongAt(code: Bytes, pc: nat): (r: seq<Word>)
    requires pc < |code|
    ensures |r| <= 1
  {
    var n := PushLength(code[pc]);
    if n > 5 then [PushedAt(code + Zeros(PADDING), pc, n)] else []
  }

  /** Replace a long PUSH by a PUSHC with its pool offset and the count of remaining bytes. */
  function Pooled(s: Bytes, pc: nat, n: nat, offset: nat): (t: Bytes)
    requires 5 < n <= 32 && pc + n < |s| && offset < POOL_LIMIT
    ensures |t| == |s|
  {
    s[pc := PUSHC][pc + 3 := n - 2][pc + 2 := offset % 256][pc + 1 := offset / 256]
  }

  /** Replace a JUMP or JUMPI whose constant destination is verified. */
  function Direct(s: Bytes, i: nat, val: Word, dests: seq<nat>): (t: Bytes)
    requires i < |s|
    ensures |t| == |s|
  {
    if s[i] == JUMP && Verified(dests, val) then s[i := JUMPC]
    else if s[i] == JUMPI && Verified(dests, val) then s[i := JUMPCI]
    else s
  }

  /** One round of the second loop of `optimize`; only a PUSH causes any writing. */
  function Rewrite(s: Bytes, pc: nat, pool: seq<Word>, dests: seq<nat>): (t: Bytes)
    requires pc + 33 < |s|
    ensures |t| == |s|
  {
    var n := PushLength(s[pc]);
    if n == 0 then s
    else Direct(if n > 5 then Pooled(s, pc, n, |pool| % POOL_LIMIT) else s, pc + n + 1, PushedAt(s, pc, n), dests)
  }

  function PoolAfter(s: Bytes, pc: nat, pool: seq<Word>): (p: seq<Word>)
    requires pc + 33 < |s|
    ensures |p| == |pool| + if PushLength(s[pc]) > 5 then 1 else 0
  {
    var n := PushLength(s[pc]);
    if n > 5 then pool + [PushedAt(s, pc, n)] else pool
  }

  function Optimized(s: Bytes, size: nat, pc: nat, pool: seq<Word>, dests: seq<nat>): (r: (Bytes, seq<Word>))
    requires |s| == size + PADDING
    ensures |r.0| == |s|
    decreases size - pc
  {
    if pc >= size then (s, pool)
    else Optimized(Rewrite(s, pc, pool, dests), size, pc + 1 + PushLength(s[pc]), PoolAfter(s, pc, pool), dests)
  }

  /** One round of the second loop, unrolled. */
  lemma Unroll(s: Bytes, size: nat, pc: nat, pool: seq<Word>, dests: seq<nat>)
    requires |s| == size + PADDING && pc < size
    ensures Optimized(s, size, pc, pool, dests)
         == Optimized(Rewrite(s, pc, pool, dests), size, pc + 1 + PushLength(s[pc]), PoolAfter(s, pc, pool), dests)
  {
  }

  lemma UnrollPlain(s: Bytes, size: nat, pc: nat, pool: seq<Word>, dests: seq<nat>)
    requires |s| == size + PADDING && pc < size && PushLength(s[pc]) == 0
    ensures Optimized(s, size, pc, pool, dests) == Optimized(s, size, pc + 1, pool, dests)
  {
    assert Rewrite(s, pc, pool, dests) == s;
    Unroll(s, size, pc, pool, dests);
  }

  /** What `initEntry` builds: the plain program, or with `pooled` the optimised one. */
  function Load(code: Bytes, pooled: bool): (p: Program)
    ensures |p.code| == |code| + PADDING && p.dests == DestsFrom(code, 0) && p.pooled == pooled
  {
    var dests := DestsFrom(code, 0);
    if pooled then
      var (s, pool) := Optimized(Prepared(code), |code|, 0, [], dests);
      Program(s, dests, pool, true)
    else Program(Prepared(code), dests, [], false)
  }
}
