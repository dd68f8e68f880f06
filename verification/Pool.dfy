/** How far the 16-bit offsets of the constant pool reach: exactly as far as every offset leads to
    an equal constant.  458752 bytes of code guarantee that and one byte more does not; a run that
    goes wrong needs a few bytes more and is in `Detour`.
 */
module Pool {
  import opened Words
  import opened Instructions
  import opened Hosts
  import opened Machine
  import opened Code
  import opened Interpreter
  import opened Optimizer

  /** Every pooled PUSH finds its own constant. */
  ghost predicate SameConstants(code: Bytes)
  {
    forall q: nat :: q < |code| && Boundary(code, q) && PushLength(code[q]) > 5 ==> FindsConstant(code, q)
  }

  ghost predicate FindsConstant(code: Bytes, q: nat)
    requires q < |code|
  {
    var p := Load(code, true);
    && p.code[q] == PUSHC && PoolOffset(p.code, q) < |p.pool|
    && p.pool[PoolOffset(p.code, q)] == PushedAt(Prepared(code), q, PushLength(code[q]))
  }

  /** Every pool entry was stashed for some PUSH. */
  lemma {:induction false} PoolOrigin(code: Bytes, s: Bytes, pc: nat, pool: seq<Word>, p: Program, k: nat) returns (q: nat)
    requires Passing(code, s, pc, pool, p) && |pool| <= k < |p.pool|
    ensures Origin(code, p, q, k)
    decreases |code| - pc
  {
    PreparedAtBoundary(code, pc);
    if PushLength(code[pc]) > 5 && k == |pool| {
      StashedHere(code, s, pc, pool, p);
      q := pc;
    } else {
      PassingNext(code, s, pc, pool, p);
      RewriteFacts(Prepared(code), s, pc, pool, p.dests);
      q := PoolOrigin(code, Rewrite(s, pc, pool, p.dests), NextPc(code, pc), PoolAfter(s, pc, pool), p, k);
    }
  }

  /** The optimiser keeps every constant exactly when the long constants of the code can be told
      apart by 16 bits of their position, or need not be. */
  lemma RecoverableExact(code: Bytes)
    ensures Recoverable(LongConstants(code, 0)) <==> SameConstants(code)
  {
    var p := Load(code, true);
    StartPassing(code);
    PoolExact(code);
    if Recoverable(p.pool) {
      forall q: nat | q < |code| && Boundary(code, q) && PushLength(code[q]) > 5 ensures FindsConstant(code, q)
      {
        var k := Stashed(code, Prepared(code), 0, [], p, q);
      }
    } else {
      var k :| 0 <= k < |p.pool| && p.pool[PoolIndex(k)] != p.pool[k];
      var q := PoolOrigin(code, Prepared(code), 0, [], p, k);
      assert !FindsConstant(code, q);
    }
  }

  /** A collision shows in one step: some PUSH of the code pushes a wrong word from every state that
      can execute it. */
  lemma CollisionShows(h: Host, f: Frame, k: nat) returns (q: nat)
    requires var c := LongConstants(f.code, 0); k < |c| && c[PoolIndex(k)] != c[k]
    ensures q < |f.code| && Boundary(f.code, q)
    ensures forall st: State :: st.pc == q && |st.stack| < STACK_LIMIT && st.gas >= 3 ==>
      && Fetchable(Load(f.code, true), st.pc) && Fetchable(Load(f.code, false), st.pc)
      && Step(h, f, Load(f.code, true), st) != Step(h, f, Load(f.code, false), st)
  {
    StartPassing(f.code);
    PoolExact(f.code);
    q := PoolOrigin(f.code, Prepared(f.code), 0, [], Load(f.code, true), k);
    forall st: State | st.pc == q && |st.stack| < STACK_LIMIT && st.gas >= 3
      ensures Fetchable(Load(f.code, true), st.pc) && Fetchable(Load(f.code, false), st.pc)
      ensures Step(h, f, Load(f.code, true), st) != Step(h, f, Load(f.code, false), st)
    {
      WrongWord(h, f, Load(f.code, true), Load(f.code, false), st, k);
    }
  }

  lemma WrongWord(h: Host, f: Frame, p: Program, plain: Program, st: State, k: nat)
    requires Origin(f.code, p, st.pc, k) && p.pool[PoolIndex(k)] != p.pool[k] && p.pooled
    requires plain.code == Prepared(f.code) && |st.stack| < STACK_LIMIT && st.gas >= 3
    ensures Fetchable(p, st.pc) && Fetchable(plain, st.pc)
    ensures Step(h, f, p, st) != Step(h, f, plain, st)
  {
    PreparedAtBoundary(f.code, st.pc);
    StepAtPush(h, f, p, st, PUSHC);
    StepAtPush(h, f, plain, st, plain.code[st.pc]);
    assert StepPush(p, st, PUSHC, 3).st.stack[0] == p.pool[PoolIndex(k)];
    assert StepPush(plain, st, plain.code[st.pc], 3).st.stack[0] == p.pool[k];
  }

  // ---- The bound on the offsets is tight ----

  /** From `at` on: `n` times PUSH6 of the constant 0x010101010101. */
  ghost predicate Pushes(code: Bytes, at: nat, n: nat)
  {
    && at + 7 * n <= |code|
    && forall i :: 0 <= i < 7 * n ==> code[at + i] == if i % 7 == 0 then 0x65 else 1
  }

  lemma PushAt(code: Bytes, at: nat, n: nat, i: nat)
    requires Pushes(code, at, n) && i < n
    ensures var pc := at + 7 * i;
      && pc < |code| && PushLength(code[pc]) == 6 && NextPc(code, pc) == at + 7 * (i + 1)
      && PushedAt(code + Zeros(PADDING), pc, 6) > 0
  {
    var pc, j := at + 7 * i, 7 * i;
    assert j % 7 == 0 && code[at + j] == 0x65;
    assert (j + 6) % 7 == 6 && code[at + (j + 6)] == 1;
    var s := code + Zeros(PADDING);
    assert s[pc + 6] == 1;
    assert BEAt(s, pc + 1, 6) == 256 * BEAt(s, pc + 1, 5) + s[pc + 6];
  }

  /** The constants of such a stretch come before those of what follows it. */
  lemma {:induction false} StretchConstants(code: Bytes, at: nat, n: nat, i: nat)
    requires Pushes(code, at, n) && i <= n
    ensures var c := LongConstants(code, at + 7 * i);
      && |c| == n - i + |LongConstants(code, at + 7 * n)|
      && (forall k :: 0 <= k < n - i ==> c[k] > 0)
      && c[n - i..] == LongConstants(code, at + 7 * n)
    decreases n - i
  {
    if i < n {
      PushAt(code, at, n, i);
      StretchConstants(code, at, n, i + 1);
      var c, d := LongConstants(code, at + 7 * i), LongConstants(code, at + 7 * (i + 1));
      assert c == LongAt(code, at + 7 * i) + d;
      assert c[n - i..] == d[n - (i + 1)..];
    }
  }

  lemma {:induction false} ZeroTail(s: Bytes, lo: nat, n: nat)
    requires lo + n <= |s| && forall i :: lo <= i < lo + n ==> s[i] == 0
    ensures BEAt(s, lo, n) == 0
    decreases n
  {
    if n > 0 { ZeroTail(s, lo, n - 1); }
  }

  /** One byte above the limit: 65536 such pushes and a last PUSH6 without its data. */
  ghost predicate LongCode(code: Bytes, n: nat)
  {
    n == POOL_LIMIT && |code| == 7 * n + 1 && Pushes(code, 0, n) && code[7 * n] == 0x65
  }

  lemma LongCodeExists(n: nat) returns (code: Bytes)
    requires n == POOL_LIMIT
    ensures LongCode(code, n)
  {
    code := seq(7 * n + 1, i => if i % 7 == 0 then 0x65 else 1);
  }

  /** The offsets do not recover its constants. */
  lemma LimitTight(code: Bytes, n: nat)
    requires LongCode(code, n)
    ensures |code| == CODE_LIMIT + 1 && !Recoverable(LongConstants(code, 0))
  {
    StretchConstants(code, 0, n, 0);
    var s, c := code + Zeros(PADDING), LongConstants(code, 0);
    var last := LongConstants(code, 7 * n);
    assert NextPc(code, 7 * n) >= |code| && last == LongAt(code, 7 * n) + [];
    ZeroTail(s, 7 * n + 1, 6);
    assert c[n] == c[n..][0] == 0;
    assert PoolIndex(n) == 0;
  }
}
