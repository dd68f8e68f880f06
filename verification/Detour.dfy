/** A run that the optimiser changes.  A code of 458766 bytes jumps over 65536 long pushes to one
    more, whose 16-bit pool offset leads to the first of them: a contract that destroys itself in
    favour of account 0 does so in favour of another account.
 */
module Detour {
  import opened Words
  import opened Instructions
  import opened Hosts
  import opened Machine
  import opened Code
  import opened Interpreter
  import opened Optimizer
  import opened Execution
  import opened Pool

  // ---- Runs on any program ----

  type Mover = State -> Option<StepResult>

  /** The interpreter on a program: it needs no more than that the instruction can be fetched. */
  function Stepper(h: Host, f: Frame, p: Program): (move: Mover)
  {
    (s: State) => if Fetchable(p, s.pc) then Some(Step(h, f, p, s)) else None
  }

  lemma StepperStep(h: Host, f: Frame, p: Program, st: State)
    requires Fetchable(p, st.pc)
    ensures Stepper(h, f, p)(st) == Some(Step(h, f, p, st))
  {
  }

  /** The result of the instruction after `n` others. */
  function StepAfter(move: Mover, st: State, n: nat): (r: Option<StepResult>)
    decreases n
  {
    match move(st)
    case None => None
    case Some(r) => if n == 0 then Some(r) else if r.Next? then StepAfter(move, r.st, n - 1) else None
  }

  /** How a run from a state ends, where whole runs are defined. */
  type Ending = State -> Option<End>

  ghost function RunsOf(h: Host, f: Frame, pooled: bool): (run: Ending)
    requires Suitable(h, pooled)
  {
    (s: State) => if Ready(f, pooled, s) then Some(Run(h, f, pooled, s)) else None
  }

  /** An instruction changes nothing about how the run ends, and a halt ends it. */
  ghost predicate Respects(move: Mover, run: Ending)
  {
    forall s: State {:trigger move(s)} :: run(s).Some? && move(s).Some? ==> Respected(run, s, move(s).value)
  }

  ghost predicate Respected(run: Ending, s: State, r: StepResult)
  {
    match r
    case Next(t) => run(t) == run(s)
    case Halt(reverted, output, t) => run(s) == Some(Done(reverted, output, t))
    case _ => true
  }

  lemma RunsRespect(h: Host, f: Frame, pooled: bool)
    requires Suitable(h, pooled)
    ensures Respects(Stepper(h, f, Load(f.code, pooled)), RunsOf(h, f, pooled))
  {
    var p, run := Load(f.code, pooled), RunsOf(h, f, pooled);
    forall s: State | run(s).Some? && Stepper(h, f, p)(s).Some? ensures Respected(run, s, Stepper(h, f, p)(s).value)
    {
      var r := Step(h, f, p, s);
      if !r.CallOut? {
        OneStep(h, f, pooled, s);
        RunOn(h, f, pooled, s, r);
      }
    }
  }

  lemma OneStep(h: Host, f: Frame, pooled: bool, st: State)
    requires Suitable(h, pooled) && Ready(f, pooled, st) && Fetchable(Load(f.code, pooled), st.pc)
    requires !Step(h, f, Load(f.code, pooled), st).CallOut?
    ensures Advance(h, f, pooled, st) == Step(h, f, Load(f.code, pooled), st)
  {
  }

  lemma RunOn(h: Host, f: Frame, pooled: bool, st: State, r: StepResult)
    requires Suitable(h, pooled) && Ready(f, pooled, st) && Advance(h, f, pooled, st) == r
    ensures r.Next? ==> Ready(f, pooled, r.st) && Run(h, f, pooled, st) == Run(h, f, pooled, r.st)
    ensures r.Halt? ==> Run(h, f, pooled, st) == Done(r.reverted, r.output, r.st)
  {
  }

  lemma {:induction false} HaltEndsRun(move: Mover, run: Ending, st: State, n: nat, r: StepResult)
    requires Respects(move, run) && run(st).Some? && StepAfter(move, st, n) == Some(r) && r.Halt?
    ensures run(st) == Some(Done(r.reverted, r.output, r.st))
    decreases n
  {
    if n > 0 {
      HaltEndsRun(move, run, move(st).value.st, n - 1, r);
    }
  }

  // ---- The code ----

  /** PUSH3 dest, JUMP, `n` long pushes, JUMPDEST at `dest`, PUSH6 0, SELFDESTRUCT. */
  ghost predicate Detours(code: Bytes, n: nat, dest: nat)
  {
    && dest == 5 + 7 * n < 0x100_0000 && |code| == dest + 9
    && code[0] == 0x62 && code[1] == dest / 65536 && code[2] == dest / 256 % 256 && code[3] == dest % 256
    && code[4] == JUMP
    && Pushes(code, 5, n)
    && code[dest] == JUMPDEST && code[dest + 1] == 0x65
    && (forall i :: dest + 2 <= i < dest + 8 ==> code[i] == 0)
    && code[dest + 8] == 0xff
  }

  lemma DetourExists(n: nat, dest: nat) returns (code: Bytes)
    requires dest == 5 + 7 * n < 0x100_0000
    ensures Detours(code, n, dest)
  {
    var head: Bytes := [0x62, dest / 65536, dest / 256 % 256, dest % 256, JUMP];
    var middle: Bytes := seq(7 * n, i => if i % 7 == 0 then 0x65 else 1);
    var tail: Bytes := [JUMPDEST, 0x65, 0, 0, 0, 0, 0, 0, 0xff];
    code := head + middle + tail;
    assert forall i :: 0 <= i < 7 * n ==> code[5 + i] == middle[i];
    assert forall i :: 0 <= i < 9 ==> code[dest + i] == tail[i];
  }

  lemma {:induction false} StretchBoundary(code: Bytes, n: nat, dest: nat, i: nat)
    requires Detours(code, n, dest) && i <= n
    ensures Boundary(code, 5 + 7 * i)
    decreases i
  {
    if i == 0 {
      assert Boundary(code, 0);
      BoundaryNextFrom(code, 0, 0);
      BoundaryNextFrom(code, 0, 4);
    } else {
      StretchBoundary(code, n, dest, i - 1);
      PushAt(code, 5, n, i - 1);
      BoundaryNextFrom(code, 0, 5 + 7 * (i - 1));
    }
  }

  lemma DetourBoundaries(code: Bytes, n: nat, dest: nat)
    requires Detours(code, n, dest)
    ensures Boundary(code, 0) && Boundary(code, 4) && Boundary(code, dest) && Boundary(code, dest + 1) && Boundary(code, dest + 8)
  {
    BoundaryNextFrom(code, 0, 0);
    StretchBoundary(code, n, dest, n);
    BoundaryNextFrom(code, 0, dest);
    BoundaryNextFrom(code, 0, dest + 1);
  }

  lemma DestValue(code: Bytes, s: Bytes, n: nat, dest: nat)
    requires Detours(code, n, dest) && |s| > 4 && s[1] == code[1] && s[2] == code[2] && s[3] == code[3]
    ensures PushedAt(s, 0, 3) == dest
  {
    assert BEAt(s, 1, 1) == 256 * BEAt(s, 1, 0) + s[1];
    assert BEAt(s, 1, 2) == 256 * BEAt(s, 1, 1) + s[2];
    assert BEAt(s, 1, 3) == 256 * BEAt(s, 1, 2) + s[3];
  }

  lemma NoLongConstant(code: Bytes, pc: nat, next: nat)
    requires pc < |code| && PushLength(code[pc]) <= 5 && next == NextPc(code, pc)
    ensures LongConstants(code, pc) == LongConstants(code, next)
  {
    assert LongAt(code, pc) == [];
  }

  /** `n` constants that are not 0, then 0. */
  lemma DetourConstants(code: Bytes, n: nat, dest: nat)
    requires Detours(code, n, dest)
    ensures var c := LongConstants(code, 0); |c| == n + 1 && c[n] == 0 && forall k :: 0 <= k < n ==> c[k] > 0
  {
    HeadConstants(code, n, dest);
    LastConstant(code, n, dest);
    TailConstants(code, dest);
    StretchThenZero(code, n, LongConstants(code, 0));
  }

  lemma HeadConstants(code: Bytes, n: nat, dest: nat)
    requires Detours(code, n, dest)
    ensures LongConstants(code, 0) == LongConstants(code, 5)
  {
    NoLongConstant(code, 0, 4);
    NoLongConstant(code, 4, 5);
  }

  lemma StretchThenZero(code: Bytes, n: nat, c: seq<Word>)
    requires Pushes(code, 5, n) && c == LongConstants(code, 5) && LongConstants(code, 5 + 7 * n) == [0]
    ensures |c| == n + 1 && c[n] == 0 && forall k :: 0 <= k < n ==> c[k] > 0
  {
    StretchConstants(code, 5, n, 0);
    assert c[n] == c[n..][0];
  }

  lemma LongUnfold(code: Bytes, pc: nat, next: nat)
    requires pc < |code| && next == NextPc(code, pc)
    ensures LongConstants(code, pc) == LongAt(code, pc) + LongConstants(code, next)
  {
  }

  lemma TailConstants(code: Bytes, dest: nat)
    requires |code| == dest + 9 && PushLength(code[dest]) == 0 && PushLength(code[dest + 8]) == 0
    requires NextPc(code, dest + 1) == dest + 8 && LongAt(code, dest + 1) == [0]
    ensures LongConstants(code, dest) == [0]
  {
    var one, eight, end := dest + 1, dest + 8, dest + 9;
    NoLongConstant(code, dest, one);
    LongUnfold(code, one, eight);
    NoLongConstant(code, eight, end);
  }

  lemma LastConstant(code: Bytes, n: nat, dest: nat)
    requires Detours(code, n, dest)
    ensures NextPc(code, dest + 1) == dest + 8 && LongAt(code, dest + 1) == [0]
  {
    ZeroTail(code + Zeros(PADDING), dest + 2, 6);
  }

  // ---- Its run ----

  /** A program that does what the code says, except that the last PUSH may push some other word. */
  ghost predicate Follows(p: Program, dest: nat, w: Word)
  {
    && dest + 42 == |p.code| && 5 <= dest < TWO_63 && Verified(p.dests, dest)
    && p.code[0] == 0x62 && PushedAt(p.code, 0, 3) == dest
    && (p.code[4] == JUMP || (p.pooled && p.code[4] == JUMPC))
    && p.code[dest] == JUMPDEST && p.code[dest + 8] == 0xff
    && (|| (p.code[dest + 1] == 0x65 && PushedAt(p.code, dest + 1, 6) == w)
        || (p.pooled && p.code[dest + 1] == PUSHC && p.code[dest + 4] == 4 && PoolOffset(p.code, dest + 1) < |p.pool|
            && p.pool[PoolOffset(p.code, dest + 1)] == w))
  }

  /** After `steps` instructions of the run: so far nothing has happened but charges. */
  ghost predicate Underway(st: State, start: State, pc: nat, stack: seq<Word>, paid: nat)
  {
    st.pc == pc && st.stack == stack && st.trace == start.trace && st.gas == start.gas - paid && paid <= start.gas
  }

  lemma FirstSteps(h: Host, f: Frame, p: Program, st: State, dest: nat, w: Word)
    requires Follows(p, dest, w) && st.pc == 0 && st.stack == [] && st.gas >= 40000
    ensures Fetchable(p, 0) && Step(h, f, p, st).Next? && Underway(Step(h, f, p, st).st, st, 4, [dest], 3)
  {
    StepAtPush(h, f, p, st, 0x62);
  }

  lemma JumpOver(h: Host, f: Frame, p: Program, st: State, start: State, dest: nat, w: Word)
    requires Follows(p, dest, w) && start.gas >= 40000 && Underway(st, start, 4, [dest], 3)
    ensures Fetchable(p, 4) && Step(h, f, p, st).Next? && Underway(Step(h, f, p, st).st, start, dest, [], 11)
  {
    StepAtJump(h, f, p, st, p.code[4]);
  }

  lemma AtDest(h: Host, f: Frame, p: Program, st: State, start: State, dest: nat, w: Word)
    requires Follows(p, dest, w) && start.gas >= 40000 && Underway(st, start, dest, [], 11)
    ensures Fetchable(p, dest) && Step(h, f, p, st).Next? && Underway(Step(h, f, p, st).st, start, dest + 1, [], 12)
  {
  }

  lemma LastPush(h: Host, f: Frame, p: Program, st: State, start: State, dest: nat, w: Word)
    requires Follows(p, dest, w) && start.gas >= 40000 && Underway(st, start, dest + 1, [], 12)
    ensures Fetchable(p, dest + 1) && Step(h, f, p, st).Next? && Underway(Step(h, f, p, st).st, start, dest + 8, [w], 15)
  {
    StepAtPush(h, f, p, st, p.code[dest + 1]);
  }

  lemma Destroys(h: Host, f: Frame, p: Program, st: State, start: State, dest: nat, w: Word)
    requires Follows(p, dest, w) && start.gas >= 40000 && Underway(st, start, dest + 8, [w], 15) && !f.msg.isStatic
    ensures Fetchable(p, dest + 8)
    ensures var r := Step(h, f, p, st);
            r.Halt? && !r.reverted && r.output == [] && r.st.trace == start.trace + [Destruct(f.msg.destination, ToAddress(w))]
  {
  }

  lemma TwoSteps(move: Mover, st: State, s1: State, s2: State, n: nat)
    requires n >= 2 && move(st) == Some(Next(s1)) && move(s1) == Some(Next(s2))
    ensures StepAfter(move, st, n) == StepAfter(move, s2, n - 2)
  {
    assert StepAfter(move, st, n) == StepAfter(move, s1, n - 1);
  }

  lemma FirstHalf(h: Host, f: Frame, p: Program, st: State, dest: nat, w: Word, n: nat) returns (s2: State)
    requires n >= 2 && Follows(p, dest, w) && st.pc == 0 && st.stack == [] && st.gas >= 40000
    ensures Underway(s2, st, dest, [], 11) && StepAfter(Stepper(h, f, p), st, n) == StepAfter(Stepper(h, f, p), s2, n - 2)
  {
    FirstSteps(h, f, p, st, dest, w);
    var s1 := Step(h, f, p, st).st;
    JumpOver(h, f, p, s1, st, dest, w);
    s2 := Step(h, f, p, s1).st;
    StepperStep(h, f, p, st);
    StepperStep(h, f, p, s1);
    TwoSteps(Stepper(h, f, p), st, s1, s2, n);
  }

  lemma SecondHalf(h: Host, f: Frame, p: Program, start: State, s2: State, dest: nat, w: Word, n: nat) returns (s4: State)
    requires n >= 2 && Follows(p, dest, w) && start.gas >= 40000 && Underway(s2, start, dest, [], 11)
    ensures Underway(s4, start, dest + 8, [w], 15) && StepAfter(Stepper(h, f, p), s2, n) == StepAfter(Stepper(h, f, p), s4, n - 2)
  {
    AtDest(h, f, p, s2, start, dest, w);
    var s3 := Step(h, f, p, s2).st;
    LastPush(h, f, p, s3, start, dest, w);
    s4 := Step(h, f, p, s3).st;
    StepperStep(h, f, p, s2);
    StepperStep(h, f, p, s3);
    TwoSteps(Stepper(h, f, p), s2, s3, s4, n);
  }

  /** Five instructions, and the contract is gone in favour of the word pushed last. */
  lemma DetourRun(h: Host, f: Frame, p: Program, st: State, dest: nat, w: Word, last: nat)
    requires last == 4
    requires Follows(p, dest, w) && st.pc == 0 && st.stack == [] && st.gas >= 40000 && !f.msg.isStatic
    ensures Destroyed(StepAfter(Stepper(h, f, p), st, last), st.trace, f.msg.destination, ToAddress(w))
  {
    var s2 := FirstHalf(h, f, p, st, dest, w, last);
    var s4 := SecondHalf(h, f, p, st, s2, dest, w, last - 2);
    LastStep(h, f, p, st, s4, dest, w, last - 4);
  }

  lemma LastStep(h: Host, f: Frame, p: Program, start: State, s4: State, dest: nat, w: Word, n: nat)
    requires n == 0 && Follows(p, dest, w) && start.gas >= 40000 && Underway(s4, start, dest + 8, [w], 15) && !f.msg.isStatic
    ensures Destroyed(StepAfter(Stepper(h, f, p), s4, n), start.trace, f.msg.destination, ToAddress(w))
  {
    Destroys(h, f, p, s4, start, dest, w);
    StepperStep(h, f, p, s4);
  }

  // ---- The two programs ----

  lemma DestVerified(code: Bytes, n: nat, dest: nat)
    requires Detours(code, n, dest)
    ensures Verified(DestsFrom(code, 0), dest)
  {
    DetourBoundaries(code, n, dest);
    DestsExact(code);
    assert IsDest(code, dest);
  }

  lemma PlainFollows(code: Bytes, n: nat, dest: nat)
    requires Detours(code, n, dest)
    ensures Follows(Load(code, false), dest, 0)
  {
    var s := Prepared(code);
    DestVerified(code, n, dest);
    DetourBoundaries(code, n, dest);
    PushDataKept(code, 0);
    PushDataKept(code, dest + 1);
    DestValue(code, s, n, dest);
    ZeroTail(s, dest + 2, 6);
  }

  lemma OptimizedFollows(code: Bytes, n: nat, dest: nat) returns (w: Word)
    requires Detours(code, n, dest) && n == POOL_LIMIT
    ensures ToAddress(w) != 0 && Follows(Load(code, true), dest, w)
  {
    var p := Load(code, true);
    DetourConstants(code, n, dest);
    PoolExact(code);
    w := p.pool[0];
    DestVerified(code, n, dest);
    DetourBoundaries(code, n, dest);
    StartPassing(code);
    ShapedHead(code, p, n, dest);
    ShapedTail(code, p, n, dest);
    var k := Stashed(code, Prepared(code), 0, [], p, dest + 1);
    assert p.pool[k] == 0 by { PlainFollows(code, n, dest); }
    assert k == n && PoolIndex(n) == 0;
    FirstConstant(code, n, dest);
    assert 0 < w < 0x1_0000_0000_0000;
  }

  lemma FirstConstant(code: Bytes, n: nat, dest: nat)
    requires Detours(code, n, dest) && n > 0
    ensures |LongConstants(code, 0)| > 0 && LongConstants(code, 0)[0] < 0x1_0000_0000_0000
  {
    PushAt(code, 5, n, 0);
    NoLongConstant(code, 0, 4);
    NoLongConstant(code, 4, 5);
    assert LongConstants(code, 5)[0] == LongAt(code, 5)[0];
    BEAtBound(code + Zeros(PADDING), 6, 6);
    var m := 48;
    assert Pow2(m) == 0x1_0000_0000_0000 by { Pow2Values(); var a, b := 32, 16; Pow2Add(a, b); }
  }

  lemma ShapedHead(code: Bytes, p: Program, n: nat, dest: nat)
    requires Detours(code, n, dest) && Passing(code, Prepared(code), 0, [], p) && |p.code| == |code| + PADDING
    ensures p.code[0] == 0x62 && PushedAt(p.code, 0, 3) == dest
    ensures p.code[4] == JUMP || (p.pooled && p.code[4] == JUMPC)
  {
    DetourBoundaries(code, n, dest);
    PushDataKept(code, 0);
    PassShaped(code, Prepared(code), 0, [], p, 0);
    PassShaped(code, Prepared(code), 0, [], p, 4);
    DestValue(code, p.code, n, dest);
  }

  lemma ShapedTail(code: Bytes, p: Program, n: nat, dest: nat)
    requires Detours(code, n, dest) && Passing(code, Prepared(code), 0, [], p) && |p.code| == |code| + PADDING
    ensures p.code[dest] == JUMPDEST && p.code[dest + 8] == 0xff && p.code[dest + 1] == PUSHC && p.code[dest + 4] == 4
  {
    DetourBoundaries(code, n, dest);
    PassShaped(code, Prepared(code), 0, [], p, dest);
    PassShaped(code, Prepared(code), 0, [], p, dest + 1);
    PassShaped(code, Prepared(code), 0, [], p, dest + 8);
  }

  /** The run has halted, and all it did was to destroy the contract. */
  predicate Destroyed(r: Option<StepResult>, trace: Trace, account: Address, beneficiary: Address)
  {
    r.Some? && r.value.Halt? && !r.value.reverted && r.value.output == [] && r.value.st.trace == trace + [Destruct(account, beneficiary)]
  }

  lemma PlainRun(h: Host, f: Frame, st: State, n: nat, dest: nat)
    requires Detours(f.code, n, dest) && Suitable(h, false) && Ready(f, false, st)
    requires st.pc == 0 && st.stack == [] && st.gas >= 40000 && !f.msg.isStatic
    ensures var e := Run(h, f, false, st);
            e.Done? && !e.reverted && e.st.trace == st.trace + [Destruct(f.msg.destination, 0)]
  {
    var last, zero: Word := 4, 0;
    PlainFollows(f.code, n, dest);
    DetourRun(h, f, Load(f.code, false), st, dest, zero, last);
    RunsRespect(h, f, false);
    PlainEnd(Stepper(h, f, Load(f.code, false)), RunsOf(h, f, false), st, f.msg.destination, last);
  }

  lemma PlainEnd(move: Mover, run: Ending, st: State, account: Address, last: nat)
    requires Respects(move, run) && run(st).Some? && Destroyed(StepAfter(move, st, last), st.trace, account, 0)
    ensures var e := run(st).value; e.Done? && !e.reverted && e.st.trace == st.trace + [Destruct(account, 0)]
  {
    HaltEndsRun(move, run, st, last, StepAfter(move, st, last).value);
  }

  lemma OptimizedRun(h: Host, f: Frame, st: State, n: nat, dest: nat, last: nat) returns (w: Address)
    requires n == POOL_LIMIT && Detours(f.code, n, dest) && last == 4
    requires st.pc == 0 && st.stack == [] && st.gas >= 40000 && !f.msg.isStatic
    ensures w != 0 && Destroyed(StepAfter(Stepper(h, f, Load(f.code, true)), st, last), st.trace, f.msg.destination, w)
  {
    var word := OptimizedFollows(f.code, n, dest);
    w := ToAddress(word);
    DetourRun(h, f, Load(f.code, true), st, dest, word, last);
  }

  /** From the initial state, on every honest host and for every message that is not static and
      has 40000 units of gas: executing the code as it is destroys the contract in favour of account
      0, the optimised code in favour of another account. */
  lemma OptimizerChangesRun(h: Host, rev: Revision, trace: Trace, msg: Message, code: Bytes, n: nat, dest: nat, last: nat)
    returns (w: Address)
    requires n == POOL_LIMIT && Detours(code, n, dest) && last == 4
    requires Suitable(h, false) && !msg.isStatic && 40000 <= msg.gas <= INT63_MAX
    ensures |code| == 458766 && w != 0
    ensures var r := Execute(h, rev, false, trace, msg, code);
            r.0.status == Success && r.1 == trace + [Destruct(msg.destination, 0)]
    ensures var optimised := Stepper(h, Frame(rev, msg, code), Load(code, true));
            Destroyed(StepAfter(optimised, Initial(msg, trace), last), trace, msg.destination, w)
  {
    var f, st := Frame(rev, msg, code), Initial(msg, trace);
    InitialReady(rev, msg, code, false, trace);
    PlainRun(h, f, st, n, dest);
    w := OptimizedRun(h, f, st, n, dest, last);
  }
}
