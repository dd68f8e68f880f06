/** MLOAD, MSTORE and MSTORE8 address memory through a 32-bit cast.  How much gas a message needs so
    that one of them uses a cast that loses bits.
 */
module Casts {
  import opened Words
  import opened Instructions
  import opened Hosts
  import opened Machine
  import opened Code
  import opened Interpreter
  import opened Optimizer
  import opened Execution
  import opened Runs

  /** `size` is the memory a word at offset 2^32 needs. */
  predicate CastSize(size: nat)
  {
    size == TWO_32 + 32
  }

  predicate Casts(op: Byte)
  {
    KindOf(op).Mload? || KindOf(op).Mstore?
  }

  /** The state is reached after `n` instructions from the initial one, and its instruction succeeds
      with an offset that its cast changes. */
  ghost predicate LossyAt(h: Host, rev: Revision, msg: Message, code: Bytes, pooled: bool, trace: Trace, n: nat, s: State)
  {
    var f, p := Frame(rev, msg, code), Load(code, pooled);
    && Suitable(h, pooled) && Runnable(code, pooled) && msg.gas <= INT63_MAX
    && After(h, f, pooled, Initial(msg, trace), n) == Some(s)
    && Fetchable(p, s.pc) && Casts(p.code[s.pc]) && Step(h, f, p, s).Next?
    && |s.stack| >= 1 && Cast32(s.stack[0]) != s.stack[0]
  }

  /** Some message with this gas reaches such a state. */
  ghost predicate Lossy(h: Host, gas: nat)
  {
    exists rev: Revision, msg: Message, code: Bytes, pooled: bool, trace: Trace, n: nat, s: State ::
      msg.gas == gas && LossyAt(h, rev, msg, code, pooled, trace, n, s)
  }

  lemma CastSmall(offset: Word)
    ensures offset < TWO_32 <==> Cast32(offset) == offset
  {
  }

  // ---- Not below: a word on the stack has cost two units, the access three ----

  /** From an empty stack nothing is pushed for less than two units. */
  lemma FirstWordCosts(h: Host, f: Frame, p: Program, st: State)
    requires Fetchable(p, st.pc) && st.stack == []
    ensures var r := Step(h, f, p, st);
            !r.CallOut? && (r.Next? && r.st.stack != [] ==> Unlent(r.st) >= Unlent(st) + 2)
  {
    var op := p.code[st.pc];
    ChargeOk(st, Cost(f.rev, op));
  }

  ghost predicate Frugal(move: Move)
  {
    forall s: State {:trigger move(s)} :: move(s).Some? ==>
      && Unlent(s) <= Unlent(move(s).value)
      && (s.stack == [] && move(s).value.stack != [] ==> Unlent(move(s).value) >= Unlent(s) + 2)
  }

  ghost predicate PaidFor(s: State)
  {
    Unlent(s) >= if s.stack == [] then 0 else 2
  }

  lemma {:induction false} IterateFrugal(move: Move, st: State, n: nat)
    requires Frugal(move) && PaidFor(st)
    ensures var r := Iterate(move, st, n); r.Some? ==> PaidFor(r.value)
    decreases n
  {
    if n > 0 && move(st).Some? {
      IterateFrugal(move, move(st).value, n - 1);
    }
  }

  lemma AdvanceFrugal(h: Host, f: Frame, pooled: bool, st: State)
    requires Suitable(h, pooled) && Ready(f, pooled, st)
    ensures var r := Advance(h, f, pooled, st); r.Next? ==>
      && Unlent(st) <= Unlent(r.st)
      && (st.stack == [] && r.st.stack != [] ==> Unlent(r.st) >= Unlent(st) + 2)
  {
    AdvanceMetered(h, f, pooled, st);
    ReadyFetchable(f, pooled, st);
    if st.stack == [] { FirstWordCosts(h, f, Load(f.code, pooled), st); }
  }

  lemma InstructionFrugal(h: Host, f: Frame, pooled: bool)
    requires Suitable(h, pooled)
    ensures Frugal(Instruction(h, f, pooled))
  {
    var move := Instruction(h, f, pooled);
    forall s: State | move(s).Some?
      ensures Unlent(s) <= Unlent(move(s).value)
      ensures s.stack == [] && move(s).value.stack != [] ==> Unlent(move(s).value) >= Unlent(s) + 2
    {
      AdvanceFrugal(h, f, pooled, s);
    }
  }

  /** The access pays three units besides its memory, and reaches into it. */
  lemma AccessCosts(h: Host, f: Frame, p: Program, st: State)
    requires Fetchable(p, st.pc) && Casts(p.code[st.pc]) && Step(h, f, p, st).Next?
    ensures var s := Step(h, f, p, st).st;
            |st.stack| >= 1 && st.stack[0] < |s.mem| && Unlent(s) >= Unlent(st) + 3
  {
    var op := p.code[st.pc];
    assert Step(h, f, p, st) == StepPlain(h, f, st, op, 3);
    if KindOf(op).Mload? { LoadCosts(st); } else { StoreCosts(st, op); }
  }

  lemma LoadCosts(st: State)
    requires |st.stack| >= 1 && StepMload(st, 3).Next?
    ensures var s := StepMload(st, 3).st; st.stack[0] < |s.mem| && Unlent(s) >= Unlent(st) + 3
  {
    var offset: nat := st.stack[0];
    ExpandOk(st, offset + 32, 3, 0);
  }

  lemma StoreCosts(st: State, op: Byte)
    requires KindOf(op).Mstore? && |st.stack| >= 2 && StepMstore(st, op, 3).Next?
    ensures var s := StepMstore(st, op, 3).st; st.stack[0] < |s.mem| && Unlent(s) >= Unlent(st) + 3
  {
    var offset: nat := st.stack[0];
    var data := if op == 0x52 then WordToBytes(st.stack[1]) else [st.stack[1] % 256];
    ExpandOk(st, offset + |data|, 3, 0);
  }

  /** What a lossy access has cost altogether. */
  lemma LossyAccounted(st: State, s: State, size: nat)
    requires CastSize(size) && Metered(st, s) && |st.mem| % 32 == 0 && st.memoryGas == GasForMem(|st.mem|)
    requires |st.stack| >= 1 && PaidFor(st) && Unlent(s) >= Unlent(st) + 3
    requires TWO_32 <= st.stack[0] < |s.mem|
    ensures Accounted(st) >= GasForMem(size) + 5
  {
    WholeWords(|s.mem|, size);
    GasForMemMonotone(size, |s.mem|);
  }

  lemma WholeWords(m: nat, size: nat)
    requires m % 32 == 0 && m > TWO_32 && CastSize(size)
    ensures m >= size
  {
  }

  lemma LossyCosts(h: Host, rev: Revision, msg: Message, code: Bytes, pooled: bool, trace: Trace, n: nat, s: State, size: nat)
    requires CastSize(size) && LossyAt(h, rev, msg, code, pooled, trace, n, s)
    ensures msg.gas >= GasForMem(size) + 5
  {
    var f, p := Frame(rev, msg, code), Load(code, pooled);
    ReachableStates(h, rev, msg, code, pooled, trace, n, s);
    InstructionFrugal(h, f, pooled);
    IterateFrugal(Instruction(h, f, pooled), Initial(msg, trace), n);
    assert Metered(s, Step(h, f, p, s).st) by { StepAlwaysOk(h, f, p, s); }
    AccessCosts(h, f, p, s);
    CastSmall(s.stack[0]);
    LossyAccounted(s, Step(h, f, p, s).st, size);
  }

  // ---- Not above: CALLVALUE, MLOAD ----

  /** The whole code: load the word at the offset that is the value of the message. */
  predicate LoadsValue(code: Bytes)
  {
    |code| == 2 && code[0] == 0x34 && code[1] == 0x51
  }

  lemma FirstInstruction(h: Host, f: Frame, st: State)
    requires LoadsValue(f.code) && Suitable(h, false) && Ready(f, false, st) && st.pc == 0 && st.stack == [] && st.gas >= 2
    ensures var r := Advance(h, f, false, st);
            r.Next? && r.st.pc == 1 && r.st.stack == [f.msg.value] && r.st.gas == st.gas - 2 && r.st.mem == st.mem
  {
    var p := Load(f.code, false);
    assert p.code[0] == 0x34;
    assert Step(h, f, p, st) == StepEnv(h, f, st, 0x34, 2);
  }

  lemma SecondInstruction(h: Host, f: Frame, p: Program, st: State, size: nat)
    requires LoadsValue(f.code) && p == Load(f.code, false)
    requires CastSize(size) && st.pc == 1 && st.stack == [TWO_32] && st.mem == []
    requires GasForMem(size) + 3 <= st.gas <= INT63_MAX
    ensures Fetchable(p, 1) && Casts(p.code[1]) && Step(h, f, p, st).Next?
  {
    assert p.code[1] == 0x51;
    StepIsLoad(h, f, p, st);
    LoadSucceeds(st, size);
  }

  lemma StepIsLoad(h: Host, f: Frame, p: Program, st: State)
    requires st.pc < |p.code| && p.code[st.pc] == 0x51 && |st.stack| == 1
    ensures Fetchable(p, st.pc) && Step(h, f, p, st) == StepMload(st, 3)
  {
  }

  lemma LoadSucceeds(st: State, size: nat)
    requires CastSize(size) && st.stack == [TWO_32] && st.mem == [] && GasForMem(size) + 3 <= st.gas <= INT63_MAX
    ensures StepMload(st, 3).Next?
  {
    ExpandFresh(st, TWO_32 + 32, size);
  }

  lemma ExpandFresh(st: State, need: nat, size: nat)
    requires st.mem == [] && size == RoundUp32(need) && need > 0
    requires GasForMem(size) + 3 <= st.gas && GasForMem(size) <= INT63_MAX
    ensures var r := Expand(st, need, 3, 0); r.Some? && r.value.mem == Zeros(size)
  {
    assert GrowthGas(0, size) == GasForMem(size);
    assert [] + Zeros(size) == Zeros(size);
  }

  lemma OneInstruction(move: Move, st: State, s: State, n: nat)
    requires n == 1 && move(st) == Some(s)
    ensures Iterate(move, st, n) == Some(s)
  {
    assert Iterate(move, s, n - 1) == Some(s);
  }

  lemma LossyReached(h: Host, rev: Revision, msg: Message, code: Bytes, trace: Trace, size: nat, n: nat) returns (s: State)
    requires Suitable(h, false) && LoadsValue(code) && msg.value == TWO_32 && n == 1
    requires CastSize(size) && GasForMem(size) + 5 <= msg.gas <= INT63_MAX
    ensures LossyAt(h, rev, msg, code, false, trace, n, s)
  {
    var f, st := Frame(rev, msg, code), Initial(msg, trace);
    InitialReady(rev, msg, code, false, trace);
    FirstInstruction(h, f, st);
    s := Advance(h, f, false, st).st;
    OneInstruction(Instruction(h, f, false), st, s, n);
    SecondInstruction(h, f, Load(code, false), s, size);
    CastSmall(s.stack[0]);
  }

  lemma Sufficient(h: Host, gas: nat, size: nat)
    requires Suitable(h, false) && CastSize(size) && GasForMem(size) + 5 <= gas <= INT63_MAX
    ensures Lossy(h, gas)
  {
    var code: Bytes, n := [0x34, 0x51], 1;
    var m := Message(Call, false, 0, gas, h.tx.coinbase, h.tx.origin, [], TWO_32, h.tx.gasPrice);
    var s := LossyReached(h, BERLIN, m, code, [], size, n);
  }

  lemma Necessary(h: Host, gas: nat, size: nat)
    requires CastSize(size) && Lossy(h, gas)
    ensures gas >= GasForMem(size) + 5
  {
    var rev: Revision, m: Message, code: Bytes, pooled: bool, trace: Trace, n: nat, s: State :|
      m.gas == gas && LossyAt(h, rev, m, code, pooled, trace, n, s);
    LossyCosts(h, rev, m, code, pooled, trace, n, s, size);
  }

  /** On every honest host: some run of a message with this gas uses a lossy cast if and only if the
      gas reaches the price of 2^32 + 32 bytes of memory and five units more. */
  lemma CastsExact(h: Host, gas: nat, size: nat)
    requires Suitable(h, false) && CastSize(size) && gas <= INT63_MAX
    ensures Lossy(h, gas) <==> gas >= GasForMem(size) + 5
  {
    if gas >= GasForMem(size) + 5 { Sufficient(h, gas, size); }
    if Lossy(h, gas) { Necessary(h, gas, size); }
  }
}
