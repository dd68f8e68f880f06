/** What a call costs, and what memory gives back. */
module Calls {
  import opened Words
  import opened Instructions
  import opened Hosts
  import opened Machine
  import opened Code
  import opened Interpreter
  import opened Optimizer
  import opened Execution
  import opened Runs

  // ---- EIP-150 ----

  lemma OfferedKeeps(rev: Revision, wanted: nat, gas: nat)
    requires rev >= TANGERINE_WHISTLE
    ensures var g := Offered(rev, wanted, gas); g <= gas && g <= wanted && gas - g >= gas / 64
    ensures Offered(rev, wanted, gas) == wanted || gas - Offered(rev, wanted, gas) == gas / 64
  {
  }

  /** From Tangerine Whistle on, whoever sends a message keeps a 64th of the gas left after the
      fixed charges; the stipend is not counted because the sender never had it. */
  lemma SenderKeeps64th(h: Host, f: Frame, p: Program, st: State)
    requires Fetchable(p, st.pc) && f.rev >= TANGERINE_WHISTLE
    ensures var r := Step(h, f, p, st);
            r.CallOut? ==> (r.msg.gas >= Stipend(r.msg, r.slot)
                            && r.st.gas >= (r.st.gas + r.msg.gas - Stipend(r.msg, r.slot)) / 64)
  {
    SenderOf(h, f, p, st);
    var r, op := Step(h, f, p, st), p.code[st.pc];
    if r.CallOut? {
      if KindOf(op).MessageCall? { CallKeeps64th(h, f, st, op, Cost(f.rev, op)); }
      else { CreateKeeps64th(h, f, st, op); }
    }
  }

  /** Only the call and create instructions send messages. */
  lemma SenderOf(h: Host, f: Frame, p: Program, st: State)
    requires Fetchable(p, st.pc)
    ensures var r, op := Step(h, f, p, st), p.code[st.pc];
            r.CallOut? ==>
              || (KindOf(op).MessageCall? && |st.stack| >= CallArity(op) && r == StepCall(h, f, st, op, Cost(f.rev, op)))
              || (KindOf(op).CreateAccount? && |st.stack| >= CreateArity(op) && r == StepCreate(h, f, st, op))
  {
    var r, op := Step(h, f, p, st), p.code[st.pc];
    if r.CallOut? {
      assert r == StepPlain(h, f, st, op, Cost(f.rev, op));
    }
  }

  lemma CallKeeps64th(h: Host, f: Frame, st: State, op: Byte, cost: nat)
    requires KindOf(op).MessageCall? && |st.stack| >= CallArity(op) && f.rev >= TANGERINE_WHISTLE
    ensures var r := StepCall(h, f, st, op, cost);
            r.CallOut? ==> (r.msg.gas >= Stipend(r.msg, r.slot)
                            && r.st.gas >= (r.st.gas + r.msg.gas - Stipend(r.msg, r.slot)) / 64)
  {
  }

  lemma CreateKeeps64th(h: Host, f: Frame, st: State, op: Byte)
    requires KindOf(op).CreateAccount? && |st.stack| >= CreateArity(op) && f.rev >= TANGERINE_WHISTLE
    ensures var r := StepCreate(h, f, st, op);
            r.CallOut? ==> (r.msg.gas >= Stipend(r.msg, r.slot)
                            && r.st.gas >= (r.st.gas + r.msg.gas - Stipend(r.msg, r.slot)) / 64)
  {
  }

  // ---- Conservation across a call ----

  /** The fixed charges of an instruction that sends a message. */
  function FixedCharge(h: Host, f: Frame, st: State, op: Byte): (g: nat)
    requires (KindOf(op).MessageCall? && |st.stack| >= CallArity(op)) || (KindOf(op).CreateAccount? && |st.stack| >= CreateArity(op))
  {
    if KindOf(op).MessageCall? then CallBase(h, f, st.trace, op, Cost(f.rev, op), ArgsOf(op, st.stack))
    else CREATE_GAS + if op == CREATE then 0 else WordGas(st.stack[2], 6)
  }

  /** What growing memory from one state to another costs. */
  function Growth(st: State, s: State): (g: int)
  {
    GasForMem(|s.mem|) - GasForMem(|st.mem|)
  }

  lemma ExpandCosts(st: State, need: nat, base: nat)
    ensures var r := Expand(st, need, base, 0); r.Some? ==> st.gas == r.value.gas + base + Growth(st, r.value)
  {
    assert WordGas(0, 3) == 0;
  }

  /** A message that is out has taken the fixed charges, the memory and its own gas but the stipend. */
  lemma CallCosts(h: Host, f: Frame, st: State, op: Byte)
    requires KindOf(op).MessageCall? && |st.stack| >= CallArity(op)
    ensures var r := StepCall(h, f, st, op, Cost(f.rev, op));
      && (r.CallOut? ==>
            st.gas == r.st.gas + r.msg.gas - Stipend(r.msg, r.slot) + FixedCharge(h, f, st, op) + Growth(st, r.st))
      && (r.Next? ==>
            st.gas == r.st.gas - (if ArgsOf(op, st.stack).value > 0 then CALL_STIPEND else 0)
                      + FixedCharge(h, f, st, op) + Growth(st, r.st))
  {
    var a := ArgsOf(op, st.stack);
    var need := MaxNeed(a);
    if need.Some? { ExpandCosts(st, need.value, FixedCharge(h, f, st, op)); }
  }

  lemma CreateCosts(h: Host, f: Frame, st: State, op: Byte)
    requires KindOf(op).CreateAccount? && |st.stack| >= CreateArity(op)
    ensures var r := StepCreate(h, f, st, op);
      && (r.CallOut? ==> Stipend(r.msg, r.slot) == 0)
      && (r.CallOut? ==> st.gas == r.st.gas + r.msg.gas + FixedCharge(h, f, st, op) + Growth(st, r.st))
      && (r.Next? ==> st.gas == r.st.gas + FixedCharge(h, f, st, op) + Growth(st, r.st))
  {
    var need := MemNeed(st.stack[1], st.stack[2]);
    if need.Some? { ExpandCosts(st, need.value, FixedCharge(h, f, st, op)); }
  }

  /** The gas of a caller before a message equals its gas after the answer, plus the charges of the
      instruction, plus the price of the memory it added, plus what the callee used, minus the
      stipend; whatever the answer is. */
  lemma CallConserves(h: Host, f: Frame, pooled: bool, st: State, op: Byte, res: Result, trace: Trace)
    requires Ready(f, pooled, st) && Fetchable(Load(f.code, pooled), st.pc) && op == Load(f.code, pooled).code[st.pc]
    requires var r := Step(h, f, Load(f.code, pooled), st); r.CallOut? && res.gasLeft <= r.msg.gas
    ensures (KindOf(op).MessageCall? && |st.stack| >= CallArity(op)) || (KindOf(op).CreateAccount? && |st.stack| >= CreateArity(op))
    ensures var r := Step(h, f, Load(f.code, pooled), st);
      && (r.slot.CallSlot? && r.slot.size > 0 ==> r.slot.offset + r.slot.size <= |r.st.mem|)
      && var s := Resume(r.st, r.msg, r.slot, res, trace);
         st.gas == s.gas + FixedCharge(h, f, st, op) + Growth(st, s) + (r.msg.gas - res.gasLeft) - Stipend(r.msg, r.slot)
  {
    var p := Load(f.code, pooled);
    var r := Step(h, f, p, st);
    NextReady(h, f, pooled, st);
    SenderOf(h, f, p, st);
    if KindOf(op).MessageCall? { CallCosts(h, f, st, op); } else { CreateCosts(h, f, st, op); }
    ResumeGas(st, r.st, r.msg, r.slot, res, trace);
  }

  /** Coming back changes the gas by what is left and the size of memory not at all. */
  lemma ResumeGas(st: State, out: State, msg: Message, slot: Slot, res: Result, trace: Trace)
    requires slot.CallSlot? && slot.size > 0 ==> slot.offset + slot.size <= |out.mem|
    requires res.gasLeft <= msg.gas
    ensures var s := Resume(out, msg, slot, res, trace); s.gas == out.gas + res.gasLeft && Growth(st, s) == Growth(st, out)
  {
  }

  /** A call that is not made, for want of balance or of depth, costs its charges and its memory and
      leaves the caller the stipend. */
  lemma RefusedConserves(h: Host, f: Frame, st: State, op: Byte)
    requires KindOf(op).MessageCall? && |st.stack| >= CallArity(op)
    requires StepCall(h, f, st, op, Cost(f.rev, op)).Next?
    ensures var s := StepCall(h, f, st, op, Cost(f.rev, op)).st;
      && s.stack == [0] + st.stack[CallArity(op)..] && s.trace == st.trace
      && st.gas == s.gas + FixedCharge(h, f, st, op) + Growth(st, s) - (if ArgsOf(op, st.stack).value > 0 then CALL_STIPEND else 0)
  {
    CallCosts(h, f, st, op);
  }

  // ---- What memory returns ----

  lemma SpliceReadsBack(mem: Bytes, at: nat, data: Bytes)
    requires at + |data| <= |mem|
    ensures Splice(mem, at, data)[at..at + |data|] == data
  {
  }

  /** MLOAD returns what MSTORE wrote at the same offset, casts and all, and needs no more memory. */
  lemma LoadAfterStore(st: State, cost: nat, next: State, offset: Word, v: Word)
    requires |st.stack| >= 2 && st.stack[0] == offset && st.stack[1] == v
    requires StepMstore(st, 0x52, cost).Next?
    requires |next.stack| >= 1 && next.stack[0] == offset && next.mem == StepMstore(st, 0x52, cost).st.mem && next.gas >= cost
    ensures var r := StepMload(next, cost); r.Next? && r.st.stack[0] == v && r.st.mem == next.mem && r.st.gas == next.gas - cost
  {
    var o: nat := offset;
    ExpandOk(st, o + 32, cost, 0);
    SpliceReadsBack(Expand(st, o + 32, cost, 0).value.mem, Cast32(offset), WordToBytes(v));
    WordRoundTrip(v);
    AlreadyPaid(st, next, o + 32, cost);
  }

  /** Memory that has been paid for is not paid for again. */
  lemma AlreadyPaid(st: State, next: State, need: nat, cost: nat)
    requires Expand(st, need, cost, 0).Some? && |next.mem| == |Expand(st, need, cost, 0).value.mem| && next.gas >= cost
    ensures var r := Expand(next, need, cost, 0); r.Some? && r.value.mem == next.mem && r.value.gas == next.gas - cost
  {
  }
}
