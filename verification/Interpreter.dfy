/** `VM::interpretCases` as a step function over a loaded program, and what every step keeps. */
module Interpreter {
  import opened Words
  import opened Instructions
  import opened Hosts
  import opened Machine
  import opened Code

  // ---- Instructions that read the program ----

  predicate Control(op: Byte)
  {
    var k := KindOf(op);
    k.Push? || k.PooledPush? || k.Jump? || k.Jumpi? || k.DirectJump? || k.DirectJumpi?
  }

  /** Every byte and pool entry the instruction at `pc` reads is there. */
  predicate Fetchable(p: Program, pc: nat)
  {
    pc < |p.code| &&
    match KindOf(p.code[pc])
    case Push(n) => pc + n < |p.code|
    case PooledPush => p.pooled ==> pc + 3 < |p.code| && PoolOffset(p.code, pc) < |p.pool|
    case _ => true
  }

  function PoolOffset(code: Bytes, pc: nat): (o: nat)
    requires pc + 2 < |code|
  {
    var high: nat, low: nat := code[pc + 1], code[pc + 2];
    256 * high + low
  }

  function StepPush(p: Program, st: State, op: Byte, cost: nat): (r: StepResult)
    requires Fetchable(p, st.pc) && p.code[st.pc] == op && (KindOf(op).Push? || KindOf(op).PooledPush?)
  {
    if KindOf(op).PooledPush? && !p.pooled then Fault(BadInstruction, st.trace)
    else match Charge(st, cost)
      case None => Fault(OutOfGas, st.trace)
      case Some(s) =>
        if KindOf(op).Push? then
          var n := PushLength(op);
          Next(s.(pc := st.pc + 1 + n, stack := [PushedAt(p.code, st.pc, n)] + st.stack))
        else
          Next(s.(pc := st.pc + 3 + p.code[st.pc + 3],
                  stack := [p.pool[PoolOffset(p.code, st.pc)]] + st.stack))
  }

  function StepJump(p: Program, st: State, op: Byte, cost: nat): (r: StepResult)
    requires || ((KindOf(op).Jump? || KindOf(op).DirectJump?) && |st.stack| >= 1)
             || ((KindOf(op).Jumpi? || KindOf(op).DirectJumpi?) && |st.stack| >= 2)
  {
    var conditional := KindOf(op).Jumpi? || KindOf(op).DirectJumpi?;
    var direct := KindOf(op).DirectJump? || KindOf(op).DirectJumpi?;
    if direct && !p.pooled then Fault(BadInstruction, st.trace)
    else match Charge(st, cost)
      case None => Fault(OutOfGas, st.trace)
      case Some(s) =>
        var stack := if conditional then st.stack[2..] else st.stack[1..];
        if conditional && st.stack[1] == 0 then Next(s.(pc := st.pc + 1, stack := stack))
        else if direct then Next(s.(pc := Wrap64(st.stack[0]), stack := stack))
        else if Verified(p.dests, st.stack[0]) then Next(s.(pc := st.stack[0], stack := stack))
        else Fault(BadJumpDestination, st.trace)
  }

  // ---- All other instructions ----

  function StepPlain(h: Host, f: Frame, st: State, op: Byte, cost: nat): (r: StepResult)
    requires Available(f.rev, op) && !Control(op) && |st.stack| >= Required(f.rev, op)
    ensures r.Next? ==> r.st.pc == st.pc + 1
    ensures r.CallOut? ==> r.st.pc == st.pc
  {
    match KindOf(op)
    case Stop => StepStop(st, cost)
    case Alu(_) => StepAlu(f, st, op, cost)
    case Env => StepEnv(h, f, st, op, cost)
    case Query => StepQuery(h, f, st, op, cost)
    case Copy => StepCopy(h, f, st, op, cost)
    case Mload => StepMload(st, cost)
    case Mstore => StepMstore(st, op, cost)
    case Sha3 => StepSha3(h, st)
    case Sstore => StepSstore(h, f, st)
    case Log(n) => StepLog(f, st, n)
    case CreateAccount => StepCreate(h, f, st, op)
    case MessageCall => StepCall(h, f, st, op, cost)
    case Return => StepReturn(st, op, cost)
    case SelfDestruct => StepSelfDestruct(h, f, st, cost)
    case Bad => Fault(if op == INVALID then InvalidInstruction else BadInstruction, st.trace)
    case Pop => StepStack(st, op, cost)
    case Jumpdest => StepStack(st, op, cost)
    case Dup(_) => StepStack(st, op, cost)
    case Swap(_) => StepStack(st, op, cost)
  }

  /** `fetchInstruction` and one pass through the switch. */
  function Step(h: Host, f: Frame, p: Program, st: State): (r: StepResult)
    requires Fetchable(p, st.pc)
  {
    var op := p.code[st.pc];
    if |st.stack| < Required(f.rev, op) then Fault(StackUnderflow, st.trace)
    else if |st.stack| + Change(f.rev, op) > STACK_LIMIT then Fault(StackOverflow, st.trace)
    else if !Available(f.rev, op) then Fault(BadInstruction, st.trace)
    else if KindOf(op).Push? || KindOf(op).PooledPush? then StepPush(p, st, op, Cost(f.rev, op))
    else if Control(op) then StepJump(p, st, op, Cost(f.rev, op))
    else StepPlain(h, f, st, op, Cost(f.rev, op))
  }

  // ---- What every step keeps ----

  /** An event that EIP-214 permits below a static call. */
  predicate Harmless(e: Event)
  {
    match e
    case Send(m) => m.isStatic && !m.kind.Create? && !m.kind.Create2? && (m.kind.Call? ==> m.value == 0)
    case Receive(_) => true
    case _ => false
  }

  /** `t` grows to `u` by at most one event; in static mode only by a harmless one. */
  ghost predicate GrowsByOne(isStatic: bool, t: Trace, u: Trace)
  {
    Grows(isStatic, t, u) && |u| <= |t| + 1
  }

  /** `t` grows to `u`; in static mode only by harmless events. */
  ghost predicate Grows(isStatic: bool, t: Trace, u: Trace)
  {
    t <= u && (isStatic ==> forall i :: |t| <= i < |u| ==> Harmless(u[i]))
  }

  /** Gas in hand and gas accounted for. */
  function Accounted(st: State): (g: int)
  {
    st.gas + st.memoryGas + st.fixedGas + st.callGas - st.stipends
  }

  /** Charges not balanced by stipends. */
  function Unlent(st: State): (g: int)
  {
    st.fixedGas + st.callGas - st.stipends
  }

  /** Metering from one state to a later one: memory only grows, by whole words, each paid for
      by the difference of `gasForMem`; no gas appears or disappears; and what is lent as stipends
      was charged before. */
  ghost predicate Metered(st: State, s: State)
  {
    && |st.mem| <= |s.mem|
    && (|st.mem| % 32 == 0 ==> |s.mem| % 32 == 0)
    && s.memoryGas + GasForMem(|st.mem|) == st.memoryGas + GasForMem(|s.mem|)
    && Accounted(s) == Accounted(st)
    && s.gas <= st.gas
    && Unlent(st) <= Unlent(s)
  }

  ghost predicate StepOk(f: Frame, st: State, r: StepResult)
  {
    match r
    case Next(s) =>
      Metered(st, s) && s.gas < st.gas && |s.stack| <= STACK_LIMIT && GrowsByOne(f.msg.isStatic, st.trace, s.trace)
    case Halt(_, _, s) => Metered(st, s) && GrowsByOne(f.msg.isStatic, st.trace, s.trace)
    case Fault(_, t) => GrowsByOne(f.msg.isStatic, st.trace, t)
    case CallOut(msg, s, slot) =>
      && f.msg.depth < DEPTH_LIMIT && msg.depth == f.msg.depth + 1
      && msg.gas >= Stipend(msg, slot)
      && s.gas + msg.gas + 3 <= st.gas
      && Metered(st, s.(gas := s.gas + msg.gas - Stipend(msg, slot)))
      && Unlent(st) + Stipend(msg, slot) <= Unlent(s)
      && |s.stack| < STACK_LIMIT && s.trace == st.trace
      && (slot.CallSlot? && slot.size > 0 ==> slot.offset + slot.size <= |s.mem|)
      && (f.msg.isStatic ==> Harmless(Send(msg)))
  }

  lemma ChargeOk(st: State, cost: nat)
    ensures var r := Charge(st, cost);
            r.Some? ==> (Metered(st, r.value) && r.value.gas == st.gas - cost
                         && r.value.trace == st.trace && r.value.mem == st.mem && r.value.stack == st.stack)
  {
  }

  lemma ExpandSize(st: State, need: nat, base: nat, copied: nat)
    ensures var r := Expand(st, need, base, copied);
            r.Some? ==> (|r.value.mem| == (if RoundUp32(need) > |st.mem| then RoundUp32(need) else |st.mem|)
                         && st.mem <= r.value.mem)
  {
  }

  lemma ExpandGas(st: State, need: nat, base: nat, copied: nat)
    ensures var r := Expand(st, need, base, copied);
            r.Some? ==> (r.value.memoryGas == st.memoryGas + GrowthGas(|st.mem|, RoundUp32(need))
                         && r.value.fixedGas == st.fixedGas + base + WordGas(copied, 3)
                         && r.value.gas + base + WordGas(copied, 3) + GrowthGas(|st.mem|, RoundUp32(need)) == st.gas)
  {
  }

  lemma GrowthIs(current: nat, size: nat, grown: nat)
    requires grown == if size > current then size else current
    ensures GrowthGas(current, size) + GasForMem(current) == GasForMem(grown)
  {
  }

  /** After `updateMem` the access `0 .. need` is inside the memory. */
  lemma ExpandOk(st: State, need: nat, base: nat, copied: nat)
    ensures var r := Expand(st, need, base, copied);
            r.Some? ==> (Metered(st, r.value) && r.value.gas <= st.gas - base && need <= |r.value.mem|
                         && Unlent(st) + base <= Unlent(r.value)
                         && r.value.trace == st.trace && r.value.stack == st.stack && r.value.pc == st.pc
                         && st.mem <= r.value.mem)
  {
    var r := Expand(st, need, base, copied);
    ExpandSize(st, need, base, copied);
    ExpandGas(st, need, base, copied);
    RoundUp32Facts(need);
    if r.Some? { GrowthIs(|st.mem|, RoundUp32(need), |r.value.mem|); }
  }

  lemma StepAluOk(f: Frame, st: State, op: Byte, cost: nat)
    requires KindOf(op).Alu? && KindOf(op).arity <= |st.stack| <= STACK_LIMIT && cost > 0
    ensures StepOk(f, st, StepAlu(f, st, op, cost))
  {
    ChargeOk(st, AluCharge(f.rev, op, st.stack, cost));
  }

  lemma StepSimpleOk(h: Host, f: Frame, st: State, op: Byte, cost: nat)
    requires Available(f.rev, op) && !Control(op) && cost > 0
    requires var k := KindOf(op); k.Env? || k.Query? || k.Pop? || k.Jumpdest? || k.Dup? || k.Swap?
    requires Required(f.rev, op) <= |st.stack| <= STACK_LIMIT && |st.stack| + Change(f.rev, op) <= STACK_LIMIT
    ensures StepOk(f, st, StepPlain(h, f, st, op, cost))
  {
    ChargeOk(st, cost);
  }

  lemma StepMloadOk(f: Frame, st: State, cost: nat)
    requires 1 <= |st.stack| <= STACK_LIMIT && cost > 0
    ensures StepOk(f, st, StepMload(st, cost))
  {
    var offset: nat := st.stack[0];
    ExpandOk(st, offset + 32, cost, 0);
  }

  lemma StepStoreOk(f: Frame, st: State, data: Bytes, cost: nat)
    requires 2 <= |st.stack| <= STACK_LIMIT && cost > 0
    ensures StepOk(f, st, StepStore(st, data, cost))
  {
    var offset: nat := st.stack[0];
    ExpandOk(st, offset + |data|, cost, 0);
  }

  lemma StepMstoreOk(f: Frame, st: State, op: Byte, cost: nat)
    requires KindOf(op).Mstore? && 2 <= |st.stack| <= STACK_LIMIT && cost > 0
    ensures StepOk(f, st, StepMstore(st, op, cost))
  {
    StepStoreOk(f, st, if op == 0x52 then WordToBytes(st.stack[1]) else [st.stack[1] % 256], cost);
  }

  lemma StepSha3Ok(h: Host, f: Frame, st: State)
    requires 2 <= |st.stack| <= STACK_LIMIT
    ensures StepOk(f, st, StepSha3(h, st))
  {
    var need := MemNeed(st.stack[0], st.stack[1]);
    if need.Some? { ExpandOk(st, need.value, 30 + WordGas(st.stack[1], 6), 0); }
  }

  lemma StepCopyOk(h: Host, f: Frame, st: State, op: Byte, cost: nat)
    requires KindOf(op).Copy? && (if op == EXTCODECOPY then 4 else 3) <= |st.stack| <= STACK_LIMIT && cost > 0
    ensures StepOk(f, st, StepCopy(h, f, st, op, cost))
  {
    var a := CopyOf(h, f, st, op);
    var need := MemNeed(a.offset, a.size);
    if need.Some? { ExpandOk(st, need.value, cost, a.size); }
  }

  lemma StepLogOk(f: Frame, st: State, n: nat)
    requires n + 2 <= |st.stack| <= STACK_LIMIT
    ensures StepOk(f, st, StepLog(f, st, n))
  {
    var need := MemNeed(st.stack[0], st.stack[1]);
    if need.Some? { ExpandOk(st, need.value, LogBase(n, st.stack[1]), 0); }
  }

  lemma StepSstoreOk(h: Host, f: Frame, st: State)
    requires 2 <= |st.stack| <= STACK_LIMIT
    ensures StepOk(f, st, StepSstore(h, f, st))
  {
    var status := h.storageStatus(st.trace, f.msg.destination, st.stack[0], st.stack[1]);
    assert SstoreGas(f.rev, status) > 0;
    ChargeOk(st, SstoreGas(f.rev, status));
  }

  lemma StepReturnOk(f: Frame, st: State, op: Byte, cost: nat)
    requires |st.stack| >= 2
    ensures StepOk(f, st, StepReturn(st, op, cost))
  {
    var need := MemNeed(st.stack[0], st.stack[1]);
    if need.Some? { ExpandOk(st, need.value, cost, 0); }
  }

  lemma StepSelfDestructOk(h: Host, f: Frame, st: State, cost: nat)
    requires |st.stack| >= 1
    ensures StepOk(f, st, StepSelfDestruct(h, f, st, cost))
  {
    ChargeOk(st, cost);
    var s := Charge(st, cost);
    if s.Some? {
      ChargeOk(s.value, NEW_ACCOUNT_GAS);
      ChargeOk(s.value, 0);
    }
  }

  lemma StepCallOk(h: Host, f: Frame, st: State, op: Byte, cost: nat)
    requires KindOf(op).MessageCall? && CallArity(op) <= |st.stack| <= STACK_LIMIT && cost >= CALL_SELF_GAS
    ensures StepOk(f, st, StepCall(h, f, st, op, cost))
  {
    var a := ArgsOf(op, st.stack);
    var need := MaxNeed(a);
    if need.Some? {
      var base := CallBase(h, f, st.trace, op, cost, a);
      ExpandOk(st, need.value, base, 0);
      var s := Expand(st, need.value, base, 0);
      if s.Some? && !(op == CALL && f.msg.isStatic && a.value != 0) {
        SendCallOk(h, f, st, s.value.(returnData := []), op, a);
      }
    }
  }

  /** The stipend of 2300 is covered by the 9000 charged for the transfer. */
  lemma SendCallOk(h: Host, f: Frame, st: State, s: State, op: Byte, a: CallArgs)
    requires KindOf(op).MessageCall? && CallArity(op) <= |s.stack| <= STACK_LIMIT
    requires Metered(st, s) && s.gas + 3 <= st.gas && s.trace == st.trace
    requires a.value > 0 ==>
      HasValueArg(op) && s.gas + VALUE_TRANSFER_GAS < st.gas && Unlent(st) + VALUE_TRANSFER_GAS < Unlent(s)
    requires op == CALL && f.msg.isStatic ==> a.value == 0
    requires a.inSize > 0 ==> a.inOffset + a.inSize <= |s.mem|
    requires a.outSize > 0 ==> a.outOffset + a.outSize <= |s.mem|
    ensures StepOk(f, st, SendCall(h, f, s, op, a))
  {
  }

  lemma StepCreateOk(h: Host, f: Frame, st: State, op: Byte)
    requires KindOf(op).CreateAccount? && CreateArity(op) <= |st.stack| <= STACK_LIMIT
    ensures StepOk(f, st, StepCreate(h, f, st, op))
  {
    var offset, size := st.stack[1], st.stack[2];
    var need, base := MemNeed(offset, size), CreateBase(op, size);
    if need.Some? && base.Some? {
      ExpandOk(st, need.value, base.value, 0);
      var s := Expand(st, need.value, base.value, 0);
      if s.Some? && !f.msg.isStatic {
        SendCreateOk(h, f, st, s.value.(returnData := []), op, st.stack[0], offset, size);
      }
    }
  }

  lemma SendCreateOk(h: Host, f: Frame, st: State, s: State, op: Byte, endowment: Word, offset: Word, size: Word)
    requires KindOf(op).CreateAccount? && CreateArity(op) <= |s.stack| <= STACK_LIMIT && !f.msg.isStatic
    requires Metered(st, s) && s.gas + 3 <= st.gas && s.trace == st.trace && Unlent(st) <= Unlent(s)
    requires size > 0 ==> offset + size <= |s.mem|
    ensures StepOk(f, st, SendCreate(h, f, s, op, endowment, offset, size))
  {
  }

  lemma StepPlainOk(h: Host, f: Frame, st: State, op: Byte)
    requires Available(f.rev, op) && !Control(op)
    requires Required(f.rev, op) <= |st.stack| <= STACK_LIMIT && |st.stack| + Change(f.rev, op) <= STACK_LIMIT
    ensures StepOk(f, st, StepPlain(h, f, st, op, Cost(f.rev, op)))
  {
    var cost := Cost(f.rev, op);
    match KindOf(op)
    case Stop => ChargeOk(st, cost);
    case Alu(_) => StepAluOk(f, st, op, cost);
    case Copy => StepCopyOk(h, f, st, op, cost);
    case Mload => StepMloadOk(f, st, cost);
    case Mstore => StepMstoreOk(f, st, op, cost);
    case Sha3 => StepSha3Ok(h, f, st);
    case Sstore => StepSstoreOk(h, f, st);
    case Log(n) => StepLogOk(f, st, n);
    case CreateAccount => StepCreateOk(h, f, st, op);
    case MessageCall => StepCallOk(h, f, st, op, cost);
    case Return => StepReturnOk(f, st, op, cost);
    case SelfDestruct => StepSelfDestructOk(h, f, st, cost);
    case Bad =>
    case _ => StepSimpleOk(h, f, st, op, cost);
  }

  lemma StepPushOk(f: Frame, p: Program, st: State, op: Byte)
    requires Fetchable(p, st.pc) && p.code[st.pc] == op && (KindOf(op).Push? || KindOf(op).PooledPush?)
    requires |st.stack| + Change(f.rev, op) <= STACK_LIMIT
    ensures StepOk(f, st, StepPush(p, st, op, Cost(f.rev, op)))
  {
    ChargeOk(st, Cost(f.rev, op));
  }

  lemma StepJumpOk(f: Frame, p: Program, st: State, op: Byte)
    requires Control(op) && !KindOf(op).Push? && !KindOf(op).PooledPush?
    requires Required(f.rev, op) <= |st.stack| <= STACK_LIMIT
    ensures StepOk(f, st, StepJump(p, st, op, Cost(f.rev, op)))
  {
    ChargeOk(st, Cost(f.rev, op));
  }

  /** What every instruction keeps, on any program and any host. */
  lemma StepAlwaysOk(h: Host, f: Frame, p: Program, st: State)
    requires Fetchable(p, st.pc) && |st.stack| <= STACK_LIMIT
    ensures StepOk(f, st, Step(h, f, p, st))
  {
    var op := p.code[st.pc];
    if Required(f.rev, op) <= |st.stack| && |st.stack| + Change(f.rev, op) <= STACK_LIMIT && Available(f.rev, op) {
      if KindOf(op).Push? || KindOf(op).PooledPush? {
        StepPushOk(f, p, st, op);
      } else if Control(op) {
        StepJumpOk(f, p, st, op);
      } else {
        StepPlainOk(h, f, st, op);
      }
    }
  }
}
