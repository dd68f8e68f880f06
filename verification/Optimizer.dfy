/** The optimiser preserves meaning: the rewritten program takes the same step as the original
    from every state a run can be in.
 */
module Optimizer {
  import opened Words
  import opened Instructions
  import opened Hosts
  import opened Machine
  import opened Code
  import opened Interpreter

  predicate DirectOp(op: Byte)
  {
    op == JUMPC || op == JUMPCI
  }

  /** Two byte strings agree on a range. */
  ghost predicate SameOn(a: Bytes, b: Bytes, lo: nat, hi: nat)
    requires hi <= |a| && hi <= |b|
  {
    forall i :: lo <= i < hi ==> a[i] == b[i]
  }

  /** Program `p` keeps the instruction of `code` at boundary `q`: unchanged, a long push that
      finds its value in the pool, or a jump made direct.  The instruction after `q` is a direct
      jump only if `q` pushes a verified destination. */
  ghost predicate Faithful(code: Bytes, p: Program, q: nat)
    requires q < |code| && |p.code| == |code| + PADDING
  {
    var orig := Prepared(code);
    var n := PushLength(code[q]);
    var next := q + 1 + n;
    && (if n == 0 then KeptJump(orig, p, q) else KeptPush(orig, p, q, n))
    && (next >= |code| ==> p.code[next] == 0)
    && (DirectOp(p.code[next]) ==> n > 0 && Verified(p.dests, PushedAt(orig, q, n)))
  }

  predicate KeptJump(orig: Bytes, p: Program, q: nat)
    requires q < |orig| == |p.code|
  {
    || p.code[q] == orig[q]
    || (p.pooled && orig[q] == JUMP && p.code[q] == JUMPC)
    || (p.pooled && orig[q] == JUMPI && p.code[q] == JUMPCI)
  }

  ghost predicate KeptPush(orig: Bytes, p: Program, q: nat, n: nat)
    requires 0 < n <= 32 && q + n < |orig| == |p.code|
  {
    || SameOn(p.code, orig, q, q + 1 + n)
    || (n > 5 && p.pooled && p.code[q] == PUSHC && p.code[q + 3] == n - 2
        && PoolOffset(p.code, q) < |p.pool| && p.pool[PoolOffset(p.code, q)] == PushedAt(orig, q, n))
  }

  /** The same without regard to what the pool holds. */
  ghost predicate Shaped(code: Bytes, p: Program, q: nat)
    requires q < |code| && |p.code| == |code| + PADDING
  {
    var orig := Prepared(code);
    var n := PushLength(code[q]);
    var next := q + 1 + n;
    && (if n == 0 then KeptJump(orig, p, q) else ShapedPush(orig, p, q, n))
    && (next >= |code| ==> p.code[next] == 0)
    && (DirectOp(p.code[next]) ==> n > 0 && Verified(p.dests, PushedAt(orig, q, n)))
  }

  ghost predicate ShapedPush(orig: Bytes, p: Program, q: nat, n: nat)
    requires 0 < n <= 32 && q + n < |orig| == |p.code|
  {
    if n > 5 then p.pooled && p.code[q] == PUSHC && p.code[q + 3] == n - 2
    else SameOn(p.code, orig, q, q + 1 + n)
  }

  ghost predicate Loaded(code: Bytes, p: Program)
  {
    && |p.code| == |code| + PADDING
    && p.dests == DestsFrom(code, 0)
    && (|code| == 0 ==> p.code[0] == 0)
    && !DirectOp(p.code[0])
    && forall q: nat :: q < |code| && Boundary(code, q) ==> Faithful(code, p, q)
  }

  /** The program counter is on an instruction of the original code or on the zero padding right
      after it, and a direct jump is only ever reached with its verified destination on top. */
  ghost predicate OnTrack(code: Bytes, p: Program, st: State)
    requires |p.code| == |code| + PADDING
  {
    && Boundary(code, st.pc) && st.pc <= |code| + 32
    && (st.pc >= |code| ==> p.code[st.pc] == 0)
    && (DirectOp(p.code[st.pc]) ==> |st.stack| >= 1 && Verified(p.dests, st.stack[0]))
  }

  // ---- The plain program ----

  lemma PlainLoaded(code: Bytes)
    ensures Loaded(code, Load(code, false))
  {
    var p := Load(code, false);
    forall q: nat | q < |code| && Boundary(code, q) ensures Faithful(code, p, q)
    {
      BoundaryNextFrom(code, 0, q);
    }
  }

  // ---- The optimised program ----

  /** `s` is the prepared code from `pc` on, except that the instruction at `pc` itself may
      already have been made direct. */
  ghost predicate Untouched(orig: Bytes, s: Bytes, pc: nat)
  {
    && |s| == |orig| && pc < |s|
    && SameOn(s, orig, pc + 1, |s|)
    && (s[pc] == orig[pc] || (orig[pc] == JUMP && s[pc] == JUMPC) || (orig[pc] == JUMPI && s[pc] == JUMPCI))
  }

  lemma PushedAtSame(a: Bytes, b: Bytes, pc: nat, n: nat)
    requires n <= 32 && pc + n < |a| && pc + n < |b| && SameOn(a, b, pc + 1, pc + 1 + n)
    ensures PushedAt(a, pc, n) == PushedAt(b, pc, n)
  {
    BEAtSame(a, b, pc + 1, n);
  }

  lemma {:induction false} BEAtSame(a: Bytes, b: Bytes, lo: nat, n: nat)
    requires lo + n <= |a| && lo + n <= |b| && SameOn(a, b, lo, lo + n)
    ensures BEAt(a, lo, n) == BEAt(b, lo, n)
    decreases n
  {
    if n > 0 { BEAtSame(a, b, lo, n - 1); }
  }

  /** Where one round may write. */
  lemma RewriteFrame(s: Bytes, pc: nat, pool: seq<Word>, dests: seq<nat>)
    requires pc + 33 < |s|
    ensures var n := PushLength(s[pc]); var t := Rewrite(s, pc, pool, dests);
      && SameOn(t, s, 0, pc)
      && SameOn(t, s, pc + 2 + n, |s|)
      && (n == 0 ==> t == s)
      && (if n > 5 then t[pc] == PUSHC && t[pc + 3] == n - 2 && PoolOffset(t, pc) == |pool| % POOL_LIMIT
          else SameOn(t, s, pc, pc + 1 + n))
  {
  }

  /** The pass never looks back: bytes before `pc` stay, and so does a byte at `pc` that is no push. */
  lemma {:induction false} PassFrame(s: Bytes, size: nat, pc: nat, pool: seq<Word>, dests: seq<nat>)
    requires |s| == size + PADDING && pc <= size + 32
    ensures var t := Optimized(s, size, pc, pool, dests).0;
      && SameOn(t, s, 0, pc)
      && (if pc >= size || PushLength(s[pc]) == 0 then t[pc] == s[pc] else t[pc] == s[pc] || t[pc] == PUSHC)
    decreases size - pc
  {
    if pc < size {
      RewriteFrame(s, pc, pool, dests);
      PassFrame(Rewrite(s, pc, pool, dests), size, pc + 1 + PushLength(s[pc]), PoolAfter(s, pc, pool), dests);
    }
  }

  /** What one round leaves behind. */
  lemma RewriteFacts(orig: Bytes, s: Bytes, pc: nat, pool: seq<Word>, dests: seq<nat>)
    requires Untouched(orig, s, pc) && pc + 33 < |s|
    ensures PushLength(s[pc]) == PushLength(orig[pc]) && (PushLength(orig[pc]) > 0 ==> s[pc] == orig[pc])
    ensures var n := PushLength(orig[pc]);
            var t := Rewrite(s, pc, pool, dests);
      && Untouched(orig, t, pc + 1 + n)
      && PushedAt(s, pc, n) == PushedAt(orig, pc, n)
      && (DirectOp(t[pc + 1 + n]) ==>
            DirectOp(orig[pc + 1 + n]) || (n > 0 && Verified(dests, PushedAt(orig, pc, n))))
  {
    RewriteFrame(s, pc, pool, dests);
    PushedAtSame(s, orig, pc, PushLength(orig[pc]));
  }

  /** A boundary of the code never holds a synthetic opcode once prepared. */
  lemma PreparedAtBoundary(code: Bytes, q: nat)
    requires Boundary(code, q) && q <= |code| + 32
    ensures !Synthetic(Prepared(code)[q])
    ensures q >= |code| ==> Prepared(code)[q] == 0
    ensures q < |code| ==> PushLength(Prepared(code)[q]) == PushLength(code[q])
  {
  }

  /** The 16-bit offset of every pool entry leads to an equal entry. */
  ghost predicate Recoverable(pool: seq<Word>)
  {
    forall k :: 0 <= k < |pool| ==> pool[PoolIndex(k)] == pool[k]
  }

  function PoolIndex(k: nat): (i: nat)
    ensures i <= k && i < POOL_LIMIT
  {
    k % 65536
  }

  lemma OffsetWithin(k: nat)
    ensures k % POOL_LIMIT == PoolIndex(k)
  {
  }

  /** The second pass has reached `pc` with code `s` and pool `pool`, and will end in `p`. */
  ghost predicate Passing(code: Bytes, s: Bytes, pc: nat, pool: seq<Word>, p: Program)
  {
    && |s| == |code| + PADDING && Untouched(Prepared(code), s, pc)
    && Boundary(code, pc) && pc <= |code| + 32
    && (p.code, p.pool) == Optimized(s, |code|, pc, pool, p.dests)
    && p.pooled
  }

  lemma StartPassing(code: Bytes)
    ensures Passing(code, Prepared(code), 0, [], Load(code, true))
  {
  }

  lemma BoundaryStep(code: Bytes, pc: nat)
    requires Boundary(code, pc) && pc < |code|
    ensures Boundary(code, NextPc(code, pc)) && NextPc(code, pc) == pc + 1 + PushLength(code[pc]) <= |code| + 32
  {
    BoundaryNextFrom(code, 0, pc);
  }

  lemma PassingNext(code: Bytes, s: Bytes, pc: nat, pool: seq<Word>, p: Program)
    requires Passing(code, s, pc, pool, p) && pc < |code|
    ensures Passing(code, Rewrite(s, pc, pool, p.dests), NextPc(code, pc), PoolAfter(s, pc, pool), p)
  {
    RoundAdvances(code, s, pc, pool, p.dests);
    Unroll(s, |code|, pc, pool, p.dests);
  }

  lemma RoundAdvances(code: Bytes, s: Bytes, pc: nat, pool: seq<Word>, dests: seq<nat>)
    requires |s| == |code| + PADDING && Untouched(Prepared(code), s, pc) && Boundary(code, pc) && pc < |code|
    ensures var next := NextPc(code, pc);
      && next == pc + 1 + PushLength(s[pc]) && next <= |code| + 32
      && Boundary(code, next) && Untouched(Prepared(code), Rewrite(s, pc, pool, dests), next)
  {
    PreparedAtBoundary(code, pc);
    BoundaryStep(code, pc);
    RewriteFacts(Prepared(code), s, pc, pool, dests);
  }

  lemma PassingHead(code: Bytes, s: Bytes, pc: nat, pool: seq<Word>, p: Program)
    requires Passing(code, s, pc, pool, p) && pc < |code|
    ensures Shaped(code, p, pc)
  {
    var t, next := Rewrite(s, pc, pool, p.dests), NextPc(code, pc);
    var pool' := PoolAfter(s, pc, pool);
    PassingNext(code, s, pc, pool, p);
    PreparedAtBoundary(code, pc);
    PreparedAtBoundary(code, next);
    PassFrame(t, |code|, next, pool', p.dests);
    RewriteFacts(Prepared(code), s, pc, pool, p.dests);
    RewriteFrame(s, pc, pool, p.dests);
    HeadShaped(code, t, pc, p);
  }

  lemma HeadShaped(code: Bytes, t: Bytes, pc: nat, p: Program)
    requires pc < |code| && |t| == |p.code| == |code| + PADDING && p.pooled
    requires var orig, n := Prepared(code), PushLength(code[pc]); var next := pc + 1 + n;
      && (if n == 0 then KeptJump(orig, p, pc) else ShapedPush(orig, p, pc, n))
      && !Synthetic(orig[next]) && (next >= |code| ==> orig[next] == 0) && Untouched(orig, t, next)
      && (if next >= |code| || PushLength(t[next]) == 0 then p.code[next] == t[next]
          else p.code[next] == t[next] || p.code[next] == PUSHC)
      && (DirectOp(t[next]) ==> DirectOp(orig[next]) || (n > 0 && Verified(p.dests, PushedAt(orig, pc, n))))
    ensures Shaped(code, p, pc)
  {
  }

  /** Whatever the pool comes to hold, every instruction keeps its shape: short pushes and all other
      instructions stay, long pushes become PUSHC, and a direct jump follows a verified constant. */
  lemma {:induction false} PassShaped(code: Bytes, s: Bytes, pc: nat, pool: seq<Word>, p: Program, q: nat)
    requires Passing(code, s, pc, pool, p) && BoundaryFrom(code, pc, q) && q < |code|
    ensures |p.code| == |code| + PADDING && Shaped(code, p, q)
    decreases |code| - pc
  {
    BoundaryOrder(code, pc, q);
    PassingHead(code, s, pc, pool, p);
    if q > pc {
      PassingNext(code, s, pc, pool, p);
      PassShaped(code, Rewrite(s, pc, pool, p.dests), NextPc(code, pc), PoolAfter(s, pc, pool), p, q);
    }
  }

  // ---- What the pool holds ----

  lemma ConstantOf(code: Bytes, pc: nat)
    requires Boundary(code, pc) && pc < |code|
    ensures var n := PushLength(code[pc]); PushedAt(Prepared(code), pc, n) == PushedAt(code + Zeros(PADDING), pc, n)
  {
    var n := PushLength(code[pc]);
    PushDataKept(code, pc);
    PushedAtSame(Prepared(code), code + Zeros(PADDING), pc, n);
  }

  lemma PoolAfterIs(code: Bytes, s: Bytes, pc: nat, pool: seq<Word>, p: Program)
    requires Passing(code, s, pc, pool, p) && pc < |code|
    ensures PoolAfter(s, pc, pool) == pool + LongAt(code, pc)
  {
    PreparedAtBoundary(code, pc);
    RewriteFacts(Prepared(code), s, pc, pool, p.dests);
    ConstantOf(code, pc);
  }

  lemma Regroup(a: seq<Word>, b: seq<Word>, c: seq<Word>)
    ensures a + b + c == a + (b + c)
  {
  }

  lemma {:induction false} PoolFrom(code: Bytes, s: Bytes, pc: nat, pool: seq<Word>, p: Program)
    requires Passing(code, s, pc, pool, p)
    ensures p.pool == pool + LongConstants(code, pc)
    decreases |code| - pc
  {
    if pc >= |code| {
      assert p.pool == pool;
    } else {
      var t, pool' := Rewrite(s, pc, pool, p.dests), PoolAfter(s, pc, pool);
      PoolAfterIs(code, s, pc, pool, p);
      PassingNext(code, s, pc, pool, p);
      PoolFrom(code, t, NextPc(code, pc), pool', p);
      Regroup(pool, LongAt(code, pc), LongConstants(code, NextPc(code, pc)));
    }
  }

  /** The pool is the list of the long constants of the code. */
  lemma PoolExact(code: Bytes)
    ensures Load(code, true).pool == LongConstants(code, 0)
  {
    StartPassing(code);
    PoolFrom(code, Prepared(code), 0, [], Load(code, true));
  }

  /** The PUSH a pool entry was stashed for. */
  ghost predicate Origin(code: Bytes, p: Program, q: nat, k: nat)
  {
    && q < |code| && Boundary(code, q) && PushLength(code[q]) > 5 && |p.code| == |code| + PADDING
    && p.code[q] == PUSHC && k < |p.pool| && PoolOffset(p.code, q) == PoolIndex(k)
    && p.pool[k] == PushedAt(Prepared(code), q, PushLength(code[q]))
  }

  lemma StashedHere(code: Bytes, s: Bytes, pc: nat, pool: seq<Word>, p: Program)
    requires Passing(code, s, pc, pool, p) && pc < |code| && PushLength(code[pc]) > 5
    ensures Origin(code, p, pc, |pool|)
  {
    var t, next, pool' := Rewrite(s, pc, pool, p.dests), NextPc(code, pc), PoolAfter(s, pc, pool);
    PassingNext(code, s, pc, pool, p);
    PreparedAtBoundary(code, pc);
    RewriteFacts(Prepared(code), s, pc, pool, p.dests);
    RewriteFrame(s, pc, pool, p.dests);
    PassFrame(t, |code|, next, pool', p.dests);
    PoolFrom(code, t, next, pool', p);
    OffsetWithin(|pool|);
    assert PoolOffset(p.code, pc) == PoolOffset(t, pc);
    assert p.pool[|pool|] == pool'[|pool|];
  }

  /** A long push really is pooled, whatever its offset leads to. */
  lemma {:induction false} Stashed(code: Bytes, s: Bytes, pc: nat, pool: seq<Word>, p: Program, q: nat) returns (k: nat)
    requires Passing(code, s, pc, pool, p) && BoundaryFrom(code, pc, q) && q < |code| && PushLength(code[q]) > 5
    ensures Origin(code, p, q, k)
    decreases |code| - pc
  {
    BoundaryOrder(code, pc, q);
    if q == pc {
      StashedHere(code, s, pc, pool, p);
      k := |pool|;
    } else {
      PassingNext(code, s, pc, pool, p);
      k := Stashed(code, Rewrite(s, pc, pool, p.dests), NextPc(code, pc), PoolAfter(s, pc, pool), p, q);
    }
  }

  lemma ShapedFaithful(code: Bytes, p: Program, q: nat)
    requires q < |code| && |p.code| == |code| + PADDING && Shaped(code, p, q)
    requires var n := PushLength(code[q]); n > 5 ==>
      PoolOffset(p.code, q) < |p.pool| && p.pool[PoolOffset(p.code, q)] == PushedAt(Prepared(code), q, n)
    ensures Faithful(code, p, q)
  {
  }

  /** With a recoverable pool every instruction of the code survives unchanged, as a PUSHC that finds
      its constant, or as a direct jump whose predecessor pushes a verified destination. */
  lemma KeptAt(code: Bytes, q: nat)
    requires Recoverable(LongConstants(code, 0)) && q < |code| && Boundary(code, q)
    ensures Faithful(code, Load(code, true), q)
  {
    var p := Load(code, true);
    StartPassing(code);
    PoolExact(code);
    PassShaped(code, Prepared(code), 0, [], p, q);
    if PushLength(code[q]) > 5 {
      var k := Stashed(code, Prepared(code), 0, [], p, q);
    }
    ShapedFaithful(code, p, q);
  }

  /** Each pooled push takes at least seven bytes of code. */
  lemma {:induction false} PoolBound(code: Bytes, pc: nat)
    ensures 7 * |LongConstants(code, pc)| <= if pc < |code| then |code| - pc + 6 else 0
    decreases |code| - pc
  {
    if pc < |code| { PoolBound(code, NextPc(code, pc)); }
  }

  const CODE_LIMIT: nat := 458752

  lemma PoolFits(code: Bytes)
    requires |code| <= CODE_LIMIT
    ensures Recoverable(LongConstants(code, 0))
  {
    PoolBound(code, 0);
    ShortPoolRecovers(LongConstants(code, 0));
  }

  lemma ShortPoolRecovers(pool: seq<Word>)
    requires |pool| <= POOL_LIMIT
    ensures Recoverable(pool)
  {
  }

  lemma OptimizedLoaded(code: Bytes)
    requires Recoverable(LongConstants(code, 0))
    ensures Loaded(code, Load(code, true))
  {
    var p := Load(code, true);
    var dests := DestsFrom(code, 0);
    PreparedAtBoundary(code, 0);
    PassFrame(Prepared(code), |code|, 0, [], dests);
    forall q: nat | q < |code| && Boundary(code, q) ensures Faithful(code, p, q)
    {
      KeptAt(code, q);
    }
  }

  // ---- One step ----

  /** Every code byte and pool entry a tracked state reads exists: 33 bytes of padding suffice. */
  lemma TrackFetchable(code: Bytes, p: Program, st: State)
    requires Loaded(code, p) && OnTrack(code, p, st)
    ensures Fetchable(p, st.pc)
    ensures st.pc + PushLength(p.code[st.pc]) < |code| + PADDING
  {
    if st.pc < |code| { assert Faithful(code, p, st.pc); }
  }

  /** A landing place after an instruction that is not a jump. */
  lemma LandNext(code: Bytes, p: Program, st: State, s: State)
    requires Loaded(code, p) && OnTrack(code, p, st) && st.pc < |code|
    requires s.pc == NextPc(code, st.pc)
    requires PushLength(code[st.pc]) > 0 ==>
      |s.stack| >= 1 && s.stack[0] == PushedAt(Prepared(code), st.pc, PushLength(code[st.pc]))
    ensures OnTrack(code, p, s)
  {
    BoundaryNextFrom(code, 0, st.pc);
    assert Faithful(code, p, st.pc);
  }

  lemma LandDest(code: Bytes, p: Program, s: State)
    requires Loaded(code, p) && Verified(p.dests, s.pc)
    ensures OnTrack(code, p, s)
  {
    DestsExact(code);
    assert IsDest(code, s.pc);
    assert Faithful(code, p, s.pc);
  }

  /** A tracked push, in whichever form, pushes the constant of the original code. */
  lemma PushFacts(code: Bytes, p: Program, st: State, op: Byte, cost: nat)
    requires Loaded(code, p) && OnTrack(code, p, st) && Fetchable(p, st.pc) && p.code[st.pc] == op
    requires KindOf(op).Push? || KindOf(op).PooledPush?
    ensures st.pc < |code| && PushLength(code[st.pc]) > 0
    ensures StepPush(p, st, op, cost) ==
      (var n := PushLength(code[st.pc]);
       match Charge(st, cost)
       case None => Fault(OutOfGas, st.trace)
       case Some(s) => Next(s.(pc := st.pc + 1 + n, stack := [PushedAt(Prepared(code), st.pc, n)] + st.stack)))
  {
    PreparedAtBoundary(code, st.pc);
    assert Faithful(code, p, st.pc);
    var n := PushLength(code[st.pc]);
    if SameOn(p.code, Prepared(code), st.pc, st.pc + 1 + n) {
      PushedAtSame(p.code, Prepared(code), st.pc, n);
    }
  }

  /** A tracked jump, direct or not, checks out exactly like the original one. */
  lemma JumpFacts(code: Bytes, p: Program, st: State)
    requires Loaded(code, p) && OnTrack(code, p, st) && st.pc < |code|
    requires Control(p.code[st.pc]) && PushLength(p.code[st.pc]) == 0 && p.code[st.pc] != PUSHC
    ensures var op, orig := p.code[st.pc], Prepared(code)[st.pc];
      && PushLength(code[st.pc]) == 0
      && (DirectOp(op) ==> p.pooled && |st.stack| >= 1 && Verified(p.dests, st.stack[0]))
      && (op == orig || (orig == JUMP && op == JUMPC) || (orig == JUMPI && op == JUMPCI))
  {
    PreparedAtBoundary(code, st.pc);
    assert Faithful(code, p, st.pc);
  }

  lemma PlainFacts(code: Bytes, p: Program, st: State)
    requires Loaded(code, p) && OnTrack(code, p, st) && !Control(p.code[st.pc])
    ensures p.code[st.pc] == Prepared(code)[st.pc]
    ensures st.pc < |code| ==> PushLength(code[st.pc]) == 0
  {
    PreparedAtBoundary(code, st.pc);
    if st.pc < |code| {
      assert Faithful(code, p, st.pc);
    }
  }

  lemma PushOnTrack(f: Frame, p: Program, st: State, op: Byte, cost: nat)
    requires Loaded(f.code, p) && OnTrack(f.code, p, st) && Fetchable(p, st.pc) && op == p.code[st.pc]
    requires KindOf(op).Push? || KindOf(op).PooledPush?
    ensures var r := StepPush(p, st, op, cost); !r.CallOut? && (r.Next? ==> OnTrack(f.code, p, r.st))
  {
    PushFacts(f.code, p, st, op, cost);
    var r := StepPush(p, st, op, cost);
    if r.Next? { LandNext(f.code, p, st, r.st); }
  }

  lemma JumpOnTrack(f: Frame, p: Program, st: State, op: Byte, cost: nat)
    requires Loaded(f.code, p) && OnTrack(f.code, p, st) && st.pc < |f.code| && op == p.code[st.pc]
    requires Control(op) && !KindOf(op).Push? && !KindOf(op).PooledPush?
    requires |st.stack| >= if op == JUMP || op == JUMPC then 1 else 2
    ensures var r := StepJump(p, st, op, cost); !r.CallOut? && (r.Next? ==> OnTrack(f.code, p, r.st))
  {
    JumpFacts(f.code, p, st);
    var r := StepJump(p, st, op, cost);
    if r.Next? {
      if (op == JUMPI || op == JUMPCI) && st.stack[1] == 0 {
        LandNext(f.code, p, st, r.st);
      } else {
        LandDest(f.code, p, r.st);
      }
    }
  }

  lemma PlainOnTrack(f: Frame, p: Program, st: State, r: StepResult)
    requires Loaded(f.code, p) && OnTrack(f.code, p, st) && !Control(p.code[st.pc])
    requires r.Next? || r.CallOut? ==> KindOf(p.code[st.pc]) != Stop
    requires r.Next? ==> r.st.pc == st.pc + 1
    requires r.CallOut? ==> r.st.pc == st.pc
    ensures r.Next? ==> OnTrack(f.code, p, r.st)
    ensures r.CallOut? ==> r.st.pc == st.pc < |f.code| && PushLength(f.code[st.pc]) == 0
  {
    PlainFacts(f.code, p, st);
    if r.Next? { LandNext(f.code, p, st, r.st); }
  }

  ghost predicate Lands(code: Bytes, p: Program, st: State, r: StepResult)
    requires |p.code| == |code| + PADDING
  {
    && (r.Next? ==> OnTrack(code, p, r.st))
    && (r.CallOut? ==> r.st.pc == st.pc < |code| && PushLength(code[st.pc]) == 0)
  }

  lemma PlainMoves(h: Host, f: Frame, p: Program, st: State)
    requires Fetchable(p, st.pc) && !Control(p.code[st.pc])
    ensures var r := Step(h, f, p, st);
      && (r.Next? ==> r.st.pc == st.pc + 1) && (r.CallOut? ==> r.st.pc == st.pc)
      && (r.Next? || r.CallOut? ==> KindOf(p.code[st.pc]) != Stop)
  {
  }

  lemma JumpLands(h: Host, f: Frame, p: Program, st: State, op: Byte)
    requires Loaded(f.code, p) && OnTrack(f.code, p, st) && Fetchable(p, st.pc) && op == p.code[st.pc]
    requires Control(op) && !KindOf(op).Push? && !KindOf(op).PooledPush?
    ensures Lands(f.code, p, st, Step(h, f, p, st))
  {
    JumpOps(op);
    StepAtJump(h, f, p, st, op);
    var n := if op == JUMP || op == JUMPC then 1 else 2;
    if |st.stack| >= n { JumpOnTrack(f, p, st, op, if n == 1 then 8 else 10); }
  }

  /** In every run the program counter stays on an instruction boundary of the original code. */
  lemma StepOnTrack(h: Host, f: Frame, p: Program, st: State)
    requires Loaded(f.code, p) && OnTrack(f.code, p, st) && Fetchable(p, st.pc)
    ensures Lands(f.code, p, st, Step(h, f, p, st))
  {
    var op := p.code[st.pc];
    if KindOf(op).Push? || KindOf(op).PooledPush? {
      StepAtPush(h, f, p, st, op);
      PushOnTrack(f, p, st, op, 3);
    } else if Control(op) {
      JumpLands(h, f, p, st, op);
    } else {
      PlainMoves(h, f, p, st);
      PlainOnTrack(f, p, st, Step(h, f, p, st));
    }
  }

  lemma StepAtPush(h: Host, f: Frame, p: Program, st: State, op: Byte)
    requires Fetchable(p, st.pc) && p.code[st.pc] == op && (KindOf(op).Push? || KindOf(op).PooledPush?)
    ensures Step(h, f, p, st) ==
      if |st.stack| + 1 > STACK_LIMIT then Fault(StackOverflow, st.trace) else StepPush(p, st, op, 3)
  {
  }

  lemma PushAgrees(code: Bytes, p: Program, q: Program, st: State, op: Byte, op': Byte)
    requires Loaded(code, p) && OnTrack(code, p, st) && Fetchable(p, st.pc) && op == p.code[st.pc]
    requires Loaded(code, q) && OnTrack(code, q, st) && Fetchable(q, st.pc) && op' == q.code[st.pc] == Prepared(code)[st.pc]
    requires KindOf(op).Push? || KindOf(op).PooledPush?
    ensures KindOf(op').Push? && StepPush(p, st, op, 3) == StepPush(q, st, op', 3)
  {
    PushFacts(code, p, st, op, 3);
    PreparedAtBoundary(code, st.pc);
    PushFacts(code, q, st, op', 3);
  }

  lemma PushStepAgrees(h: Host, f: Frame, p: Program, q: Program, st: State, op: Byte, op': Byte)
    requires Loaded(f.code, p) && OnTrack(f.code, p, st) && Fetchable(p, st.pc) && op == p.code[st.pc]
    requires Loaded(f.code, q) && OnTrack(f.code, q, st) && Fetchable(q, st.pc) && op' == q.code[st.pc] == Prepared(f.code)[st.pc]
    requires KindOf(op).Push? || KindOf(op).PooledPush?
    ensures Step(h, f, p, st) == Step(h, f, q, st)
  {
    PushAgrees(f.code, p, q, st, op, op');
    StepAtPush(h, f, p, st, op);
    StepAtPush(h, f, q, st, op');
  }

  lemma JumpOps(op: Byte)
    requires Control(op) && !KindOf(op).Push? && !KindOf(op).PooledPush?
    ensures op != 0 && (op == JUMP || op == JUMPI || op == JUMPC || op == JUMPCI)
  {
  }

  lemma StepJumpAgrees(f: Frame, p: Program, q: Program, st: State, op: Byte, op': Byte, cost: nat)
    requires p.dests == q.dests && (op == op' || (op == JUMPC && op' == JUMP) || (op == JUMPCI && op' == JUMPI))
    requires op' == JUMP || op' == JUMPI
    requires |st.stack| >= if op' == JUMP then 1 else 2
    requires DirectOp(op) ==> p.pooled && Verified(p.dests, st.stack[0])
    ensures StepJump(p, st, op, cost) == StepJump(q, st, op', cost)
  {
  }

  lemma StepAtJump(h: Host, f: Frame, p: Program, st: State, op: Byte)
    requires Fetchable(p, st.pc) && p.code[st.pc] == op && (op == JUMP || op == JUMPI || op == JUMPC || op == JUMPCI)
    ensures var n := if op == JUMP || op == JUMPC then 1 else 2;
            Step(h, f, p, st) ==
            if |st.stack| < n then Fault(StackUnderflow, st.trace)
            else if |st.stack| - n > STACK_LIMIT then Fault(StackOverflow, st.trace)
            else StepJump(p, st, op, if n == 1 then 8 else 10)
  {
    JumpRow(f.rev, op);
  }

  lemma JumpRow(rev: Revision, op: Byte)
    requires op == JUMP || op == JUMPI || op == JUMPC || op == JUMPCI
    ensures var n := if op == JUMP || op == JUMPC then 1 else 2;
            && Control(op) && !KindOf(op).Push? && !KindOf(op).PooledPush? && Available(rev, op)
            && Required(rev, op) == n && Change(rev, op) == -n && Cost(rev, op) == if n == 1 then 8 else 10
  {
  }

  lemma JumpAgrees(h: Host, f: Frame, p: Program, q: Program, st: State, op: Byte, op': Byte)
    requires Loaded(f.code, p) && OnTrack(f.code, p, st) && Fetchable(p, st.pc) && st.pc < |f.code| && op == p.code[st.pc]
    requires q.dests == p.dests && Fetchable(q, st.pc) && op' == q.code[st.pc] == Prepared(f.code)[st.pc]
    requires op == JUMP || op == JUMPI || op == JUMPC || op == JUMPCI
    ensures Step(h, f, p, st) == Step(h, f, q, st)
  {
    JumpFacts(f.code, p, st);
    assert !Synthetic(op') by { PreparedAtBoundary(f.code, st.pc); }
    StepAtJump(h, f, p, st, op);
    StepAtJump(h, f, q, st, op');
    var n := if op' == JUMP then 1 else 2;
    if |st.stack| >= n {
      StepJumpAgrees(f, p, q, st, op, op', if n == 1 then 8 else 10);
    }
  }

  lemma PlainAgrees(h: Host, f: Frame, p: Program, q: Program, st: State)
    requires Fetchable(p, st.pc) && Fetchable(q, st.pc) && p.code[st.pc] == q.code[st.pc] && !Control(p.code[st.pc])
    ensures Step(h, f, p, st) == Step(h, f, q, st)
  {
  }

  lemma TrackedBoth(code: Bytes, p: Program, st: State)
    requires Loaded(code, p) && OnTrack(code, p, st)
    ensures var q := Load(code, false);
            && Fetchable(p, st.pc) && Fetchable(q, st.pc) && Loaded(code, q) && OnTrack(code, q, st)
            && q.dests == p.dests && q.code == Prepared(code)
  {
    PlainLoaded(code);
    PreparedAtBoundary(code, st.pc);
    TrackFetchable(code, p, st);
    TrackFetchable(code, Load(code, false), st);
  }

  lemma TrackedAgrees(h: Host, f: Frame, p: Program, q: Program, st: State, op: Byte)
    requires Loaded(f.code, p) && OnTrack(f.code, p, st) && Fetchable(p, st.pc) && op == p.code[st.pc]
    requires Loaded(f.code, q) && OnTrack(f.code, q, st) && Fetchable(q, st.pc)
    requires q.dests == p.dests && q.code == Prepared(f.code)
    ensures Step(h, f, p, st) == Step(h, f, q, st)
  {
    var op' := q.code[st.pc];
    if KindOf(op).Push? || KindOf(op).PooledPush? {
      PushStepAgrees(h, f, p, q, st, op, op');
    } else if Control(op) {
      JumpOps(op);
      JumpAgrees(h, f, p, q, st, op, op');
    } else {
      PlainFacts(f.code, p, st);
      PlainAgrees(h, f, p, q, st);
    }
  }

  /** From every tracked state, a loaded program takes exactly the step of the original code. */
  lemma StepAgrees(h: Host, f: Frame, p: Program, st: State)
    requires Loaded(f.code, p) && OnTrack(f.code, p, st)
    ensures var q := Load(f.code, false);
            Fetchable(p, st.pc) && Fetchable(q, st.pc) && OnTrack(f.code, q, st)
            && Step(h, f, p, st) == Step(h, f, q, st)
  {
    TrackedBoth(f.code, p, st);
    TrackedAgrees(h, f, p, Load(f.code, false), st, p.code[st.pc]);
  }
}
