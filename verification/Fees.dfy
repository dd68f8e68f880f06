/** What the instructions cost, in numbers, by opcode and revision. */
module Fees {
  import opened Words
  import opened Instructions
  import opened Hosts
  import opened Machine
  import opened Code
  import opened Interpreter
  import opened Optimizer
  import opened Effects
  import A = Alu

  function Words32(size: nat): (n: nat)
  {
    (size + 31) / 32
  }

  /** Instructions with a price of their own, the same in every revision: the tiers of appendix G of
      the Yellow Paper. */
  function Tier(op: Byte): (g: nat)
  {
    if op == 0x00 || op == 0xf3 || op == 0xfd then 0
    else if op == 0x5b then 1
    else if op == 0x50 || 0x58 <= op <= 0x5a || 0x41 <= op <= 0x46 || op == 0x30 || 0x32 <= op <= 0x34 then 2
    else if op == 0x36 || op == 0x38 || op == 0x3a || op == 0x3d then 2
    else if op == 0x02 || 0x04 <= op <= 0x07 || op == 0x0b || op == 0x47 then 5
    else if op == 0x08 || op == 0x09 then 8
    else if op == 0x40 then 20
    else 3
  }

  predicate HasTier(op: Byte)
  {
    (op <= 0x0b && op != 0x0a) || 0x10 <= op <= 0x1d || op == 0x30 || 0x32 <= op <= 0x36 || op == 0x38 || op == 0x3a || op == 0x3d
    || 0x40 <= op <= 0x47 || 0x50 <= op <= 0x53 || 0x58 <= op <= 0x5b || 0x80 <= op <= 0x9f || op == 0xf3 || op == 0xfd
  }

  /** Instructions whose price depends on the revision: what asks the state costs more from Tangerine
      Whistle (2) and from Istanbul (7) on. */
  predicate AsksState(op: Byte)
  {
    op == 0x31 || op == 0x3b || op == 0x3f || op == 0x54
  }

  function AskFee(rev: Revision, op: Byte): (g: nat)
  {
    if op == 0x54 then (if rev >= 7 then 800 else if rev >= 2 then 200 else 50)
    else if op == 0x3b then (if rev >= 2 then 700 else 20)
    else if rev >= 7 then 700 else if rev >= 2 then 400 else 20
  }

  /** The gas of a step beside the price of the memory it adds. */
  ghost predicate Paid(st: State, s: State, fee: nat)
  {
    st.gas == s.gas + fee + (GasForMem(|s.mem|) - GasForMem(|st.mem|))
  }

  lemma ChargePaid(st: State, cost: nat)
    ensures var r := Charge(st, cost); r.Some? ==> Paid(st, r.value, cost)
  {
  }

  lemma ExpandPaid(st: State, need: nat, base: nat, copied: nat)
    ensures var r := Expand(st, need, base, copied); r.Some? ==> Paid(st, r.value, base + 3 * Words32(copied))
  {
    ExpandSize(st, need, base, copied);
    ExpandGas(st, need, base, copied);
    var r := Expand(st, need, base, copied);
    if r.Some? { GrowthIs(|st.mem|, RoundUp32(need), |r.value.mem|); }
  }

  lemma TierRow(rev: Revision, op: Byte)
    requires HasTier(op) && Available(rev, op)
    ensures Cost(rev, op) == Tier(op) && !Control(op)
    ensures var k := KindOf(op);
      k.Stop? || k.Alu? || k.Env? || k.Query? || k.Mload? || k.Mstore? || k.Pop? || k.Jumpdest? || k.Dup? || k.Swap? || k.Return?
    ensures op != 0x0a
  {
  }

  /** A handler that pays its row of the table, and its memory. */
  lemma HandlerPays(h: Host, f: Frame, st: State, op: Byte, cost: nat)
    requires Available(f.rev, op) && !Control(op) && |st.stack| >= Required(f.rev, op) && op != 0x0a
    requires var k := KindOf(op);
      k.Stop? || k.Alu? || k.Env? || k.Query? || k.Mload? || k.Mstore? || k.Pop? || k.Jumpdest? || k.Dup? || k.Swap? || k.Return?
    ensures var r := StepPlain(h, f, st, op, cost); r.Next? || r.Halt? ==> Paid(st, r.st, cost)
  {
    match KindOf(op)
    case Mload => MloadPays(st, cost);
    case Mstore => MstorePays(st, op, cost);
    case Return => ReturnPays(st, op, cost);
    case _ => ChargePaid(st, cost);
  }

  lemma MloadPays(st: State, cost: nat)
    requires |st.stack| >= 1
    ensures var r := StepMload(st, cost); r.Next? ==> Paid(st, r.st, cost)
  {
    var offset: nat := st.stack[0];
    ExpandPaid(st, offset + 32, cost, 0);
  }

  lemma MstorePays(st: State, op: Byte, cost: nat)
    requires KindOf(op).Mstore? && |st.stack| >= 2
    ensures var r := StepMstore(st, op, cost); r.Next? ==> Paid(st, r.st, cost)
  {
    StorePays(st, if op == 0x52 then WordToBytes(st.stack[1]) else [st.stack[1] % 256], cost);
  }

  lemma StorePays(st: State, data: Bytes, cost: nat)
    requires |st.stack| >= 2
    ensures var r := StepStore(st, data, cost); r.Next? ==> Paid(st, r.st, cost)
  {
    var offset: nat := st.stack[0];
    ExpandPaid(st, offset + |data|, cost, 0);
  }

  lemma ReturnPays(st: State, op: Byte, cost: nat)
    requires |st.stack| >= 2
    ensures var r := StepReturn(st, op, cost); r.Halt? ==> Paid(st, r.st, cost)
  {
    var need := MemNeed(st.stack[0], st.stack[1]);
    if need.Some? { ExpandPaid(st, need.value, cost, 0); }
  }

  /** The instructions with a fixed price cost that and the memory they add. */
  lemma TierTaken(h: Host, f: Frame, p: Program, st: State, op: Byte)
    requires Fetchable(p, st.pc) && op == p.code[st.pc] && HasTier(op) && !Step(h, f, p, st).Fault?
    ensures var r := Step(h, f, p, st); (r.Next? || r.Halt?) && Paid(st, r.st, Tier(op))
  {
    TierControl(op);
    HandlerRuns(h, f, p, st, op);
    TierRow(f.rev, op);
    HandlerPays(h, f, st, op, Tier(op));
    HandlerEnds(h, f, st, op, Tier(op));
  }

  lemma TierControl(op: Byte)
    requires HasTier(op)
    ensures !Control(op)
  {
  }

  lemma HandlerEnds(h: Host, f: Frame, st: State, op: Byte, cost: nat)
    requires Available(f.rev, op) && !Control(op) && |st.stack| >= Required(f.rev, op)
    requires !KindOf(op).MessageCall? && !KindOf(op).CreateAccount?
    ensures !StepPlain(h, f, st, op, cost).CallOut?
  {
  }

  lemma AskRow(rev: Revision, op: Byte)
    requires AsksState(op)
    ensures KindOf(op) == Query && !Control(op) && (Available(rev, op) ==> Cost(rev, op) == AskFee(rev, op))
  {
  }

  /** BALANCE, EXTCODESIZE, EXTCODEHASH and SLOAD. */
  lemma AskTaken(h: Host, f: Frame, p: Program, st: State, op: Byte)
    requires Fetchable(p, st.pc) && op == p.code[st.pc] && AsksState(op) && !Step(h, f, p, st).Fault?
    ensures var r := Step(h, f, p, st); r.Next? && Paid(st, r.st, AskFee(f.rev, op))
  {
    AskRow(f.rev, op);
    HandlerRuns(h, f, p, st, op);
    PlainIs(h, f, st, op, Cost(f.rev, op));
    ChargePaid(st, AskFee(f.rev, op));
  }

  /** EXP: ten units and ten, from Spurious Dragon on fifty, for each byte of the exponent. */
  lemma ExpTaken(h: Host, f: Frame, p: Program, st: State)
    requires Fetchable(p, st.pc) && p.code[st.pc] == 0x0a && !Step(h, f, p, st).Fault?
    ensures |st.stack| >= 2
    ensures var r := Step(h, f, p, st);
      r.Next? && Paid(st, r.st, 10 + (if f.rev >= 3 then 50 else 10) * A.ByteLength(st.stack[1]))
  {
    HandlerRuns(h, f, p, st, 0x0a);
    PlainIs(h, f, st, 0x0a, Cost(f.rev, 0x0a));
    ChargePaid(st, 10 + (if f.rev >= 3 then 50 else 10) * A.ByteLength(st.stack[1]));
  }

  /** SHA3: thirty units and six for each word hashed. */
  lemma Sha3Taken(h: Host, f: Frame, p: Program, st: State)
    requires Fetchable(p, st.pc) && p.code[st.pc] == 0x20 && !Step(h, f, p, st).Fault?
    ensures |st.stack| >= 2
    ensures var r := Step(h, f, p, st); r.Next? && Paid(st, r.st, 30 + 6 * Words32(st.stack[1]))
  {
    HandlerRuns(h, f, p, st, 0x20);
    PlainIs(h, f, st, 0x20, Cost(f.rev, 0x20));
    Sha3Pays(h, st);
  }

  lemma Sha3Pays(h: Host, st: State)
    requires |st.stack| >= 2
    ensures var r := StepSha3(h, st); r.Next? ==> Paid(st, r.st, 30 + 6 * Words32(st.stack[1]))
  {
    var need := MemNeed(st.stack[0], st.stack[1]);
    if need.Some? { ExpandPaid(st, need.value, 30 + WordGas(st.stack[1], 6), 0); }
  }

  /** LOGn: 375 units, as many for each topic, and eight for each byte. */
  lemma LogTaken(h: Host, f: Frame, p: Program, st: State, n: nat)
    requires Fetchable(p, st.pc) && n <= 4 && p.code[st.pc] == 0xa0 + n && !Step(h, f, p, st).Fault?
    ensures |st.stack| >= 2
    ensures var r := Step(h, f, p, st); r.Next? && Paid(st, r.st, 375 + 375 * n + 8 * st.stack[1])
  {
    var op := p.code[st.pc];
    LogRow(f.rev, op, n);
    HandlerRuns(h, f, p, st, op);
    PlainIs(h, f, st, op, Cost(f.rev, op));
    LogPays(f, st, n);
  }

  lemma LogPays(f: Frame, st: State, n: nat)
    requires |st.stack| >= n + 2
    ensures var r := StepLog(f, st, n); r.Next? ==> Paid(st, r.st, 375 + 375 * n + 8 * st.stack[1])
  {
    var need := MemNeed(st.stack[0], st.stack[1]);
    if need.Some? { ExpandPaid(st, need.value, LogBase(n, st.stack[1]), 0); }
  }

  /** The copy instructions: three units, EXTCODECOPY its own price, and three for each word. */
  lemma CopyTaken(h: Host, f: Frame, p: Program, st: State, op: Byte)
    requires Fetchable(p, st.pc) && op == p.code[st.pc] && (op == 0x37 || op == 0x39 || op == 0x3c || op == 0x3e) && Step(h, f, p, st).Next?
    ensures |st.stack| >= (if op == 0x3c then 4 else 3)
    ensures var base, size := if op != 0x3c then 3 else if f.rev >= 2 then 700 else 20, if op == 0x3c then st.stack[3] else st.stack[2];
      Paid(st, Step(h, f, p, st).st, base + 3 * Words32(size))
  {
    CopyStep(h, f, p, st, op);
    CopyPays(st, CopyOf(h, f, st, op), Cost(f.rev, op));
    CopyPrice(f.rev, op);
  }

  lemma CopyPays(st: State, a: CopyArgs, cost: nat)
    requires a.arity <= |st.stack|
    ensures var r := CopyIn(st, a, cost); r.Next? ==> Paid(st, r.st, cost + 3 * Words32(a.size))
  {
    var need := MemNeed(a.offset, a.size);
    if need.Some? { ExpandPaid(st, need.value, cost, a.size); }
  }

  lemma CopyPrice(rev: Revision, op: Byte)
    requires op == 0x37 || op == 0x39 || op == 0x3c || op == 0x3e
    ensures Available(rev, op) ==> Cost(rev, op) == if op != 0x3c then 3 else if rev >= 2 then 700 else 20
  {
  }

  /** SSTORE: 20000 for a new value, 5000 for a change or a deletion; writing again or the same costs
      like a read in Constantinople and from Istanbul on. */
  function StoreFee(rev: Revision, status: StorageStatus): (g: nat)
  {
    match status
    case Added => 20000
    case Modified => 5000
    case Deleted => 5000
    case _ => if rev >= 7 then 800 else if rev == 5 then 200 else 5000
  }

  /** From Istanbul on SSTORE needs more than 2300. */
  lemma SstoreTaken(h: Host, f: Frame, p: Program, st: State)
    requires Fetchable(p, st.pc) && p.code[st.pc] == 0x55 && !Step(h, f, p, st).Fault?
    ensures |st.stack| >= 2 && (f.rev >= 7 ==> st.gas > 2300) && Step(h, f, p, st).Next?
    ensures Paid(st, Step(h, f, p, st).st, StoreFee(f.rev, h.storageStatus(st.trace, f.msg.destination, st.stack[0], st.stack[1])))
  {
    HandlerRuns(h, f, p, st, 0x55);
    PlainIs(h, f, st, 0x55, Cost(f.rev, 0x55));
    SstorePays(h, f, st);
  }

  lemma SstorePays(h: Host, f: Frame, st: State)
    requires |st.stack| >= 2
    ensures f.rev >= 7 && StepSstore(h, f, st).Next? ==> st.gas > 2300
    ensures var r := StepSstore(h, f, st);
      r.Next? ==> Paid(st, r.st, StoreFee(f.rev, h.storageStatus(st.trace, f.msg.destination, st.stack[0], st.stack[1])))
  {
    ChargePaid(st, StoreFee(f.rev, h.storageStatus(st.trace, f.msg.destination, st.stack[0], st.stack[1])));
  }

  /** SELFDESTRUCT: 5000 from Tangerine Whistle on, and 25000 when it makes an account, which from
      Spurious Dragon on takes a balance. */
  function DestructFee(h: Host, f: Frame, trace: Trace, to: Word): (g: nat)
  {
    var makes := !h.accountExists(trace, to % TWO_160) && (f.rev == 2 || h.balance(trace, f.msg.destination) > 0);
    if f.rev < 2 then 0 else if makes then 30000 else 5000
  }

  lemma DestructTaken(h: Host, f: Frame, p: Program, st: State)
    requires Fetchable(p, st.pc) && p.code[st.pc] == 0xff && !Step(h, f, p, st).Fault?
    ensures |st.stack| >= 1 && Step(h, f, p, st).Halt? && Paid(st, Step(h, f, p, st).st, DestructFee(h, f, st.trace, st.stack[0]))
  {
    DestructRow(f.rev);
    HandlerRuns(h, f, p, st, 0xff);
    PlainIs(h, f, st, 0xff, Cost(f.rev, 0xff));
    DestructPays(h, f, st, Cost(f.rev, 0xff));
  }

  lemma DestructRow(rev: Revision)
    ensures Cost(rev, 0xff) == if rev < 2 then 0 else 5000
  {
  }

  lemma DestructPays(h: Host, f: Frame, st: State, cost: nat)
    requires |st.stack| >= 1 && cost == if f.rev < 2 then 0 else 5000
    ensures var r := StepSelfDestruct(h, f, st, cost); r.Halt? ==> Paid(st, r.st, DestructFee(h, f, st.trace, st.stack[0]))
  {
  }

  /** Pushes and jumps. */
  lemma ControlTaken(h: Host, f: Frame, p: Program, st: State, op: Byte)
    requires Fetchable(p, st.pc) && op == p.code[st.pc] && (0x56 <= op <= 0x57 || 0x60 <= op <= 0x7f) && !Step(h, f, p, st).Fault?
    ensures var r := Step(h, f, p, st); r.Next? && Paid(st, r.st, if op == 0x56 then 8 else if op == 0x57 then 10 else 3)
  {
    if op == 0x56 || op == 0x57 {
      StepAtJump(h, f, p, st, op);
      ChargePaid(st, if op == 0x56 then 8 else 10);
    } else {
      PushRow(op, op - 0x5f);
      StepAtPush(h, f, p, st, op);
      ChargePaid(st, 3);
    }
  }

  // ---- Calls and creations ----

  /** What a call costs beside memory and the gas it passes on: 700, before Tangerine Whistle and to
      oneself from Berlin on 40; 25000 if CALL makes an account; 9000 if value is transferred. */
  function CallFee(h: Host, f: Frame, st: State, op: Byte): (g: nat)
    requires |st.stack| >= 3
  {
    var to := st.stack[1] % 0x1_0000000000_0000000000_0000000000_0000000000;
    var value := if op == 0xf1 || op == 0xf2 then st.stack[2] else 0;
    (if f.rev >= 8 && f.msg.destination == to then 40 else if f.rev >= 2 then 700 else 40)
    + (if op == 0xf1 && (value > 0 || f.rev < 3) && !h.accountExists(st.trace, to) then 25000 else 0)
    + (if value > 0 then 9000 else 0)
  }

  lemma CallFeeTaken(h: Host, f: Frame, st: State, op: Byte)
    requires IsCall(op) && KindOf(op).MessageCall? && |st.stack| >= CallArity(op) && Available(f.rev, op)
    ensures CallBase(h, f, st.trace, op, Cost(f.rev, op), ArgsOf(op, st.stack)) == CallFee(h, f, st, op)
  {
  }

  /** A creation costs 32000, and CREATE2 six for each word of the code besides. */
  lemma CreateFeeTaken(op: Byte, size: Word)
    requires op == 0xf0 || op == 0xf5
    ensures var r := CreateBase(op, size); r.Some? ==> r.value == 32000 + if op == 0xf5 then 6 * Words32(size) else 0
  {
  }

  /** A message costs the sender its fee, the memory and its gas but for the stipend; a refused one
      gives back the gas with the stipend. */
  lemma CallTaken(h: Host, f: Frame, p: Program, st: State, op: Byte)
    requires Fetchable(p, st.pc) && op == p.code[st.pc] && IsCall(op) && !Step(h, f, p, st).Fault?
    ensures |st.stack| >= Windows(op) + 4 && CallPaid(h, f, st, op, Step(h, f, p, st))
  {
    CallRow(f.rev, op);
    CallStep(h, f, p, st, op);
    HandlerRuns(h, f, p, st, op);
    CallPays(h, f, st, op);
  }

  ghost predicate CallPaid(h: Host, f: Frame, st: State, op: Byte, r: StepResult)
    requires |st.stack| >= Windows(op) + 4
  {
    var stipend := if (op == 0xf1 || op == 0xf2) && st.stack[2] > 0 then 2300 else 0;
    var fee := CallFee(h, f, st, op);
    && (r.CallOut? ==> r.msg.gas >= stipend && Paid(st, r.st, fee + (r.msg.gas - stipend)))
    && (r.Next? ==> Paid(st.(gas := st.gas + stipend), r.st, fee) && r.st.stack == [0] + st.stack[Windows(op) + 4..])
  }

  lemma CallPays(h: Host, f: Frame, st: State, op: Byte)
    requires IsCall(op) && KindOf(op).MessageCall? && |st.stack| >= CallArity(op) && Available(f.rev, op)
    ensures CallPaid(h, f, st, op, StepCall(h, f, st, op, Cost(f.rev, op)))
  {
    CallFeeTaken(h, f, st, op);
    var a, fee := ArgsOf(op, st.stack), CallFee(h, f, st, op);
    var need := MaxNeed(a);
    if need.Some? && !(op == CALL && f.msg.isStatic && a.value != 0) {
      ExpandPaid(st, need.value, fee, 0);
      ExpandGrows(st, need.value, fee, 0);
      var s := Expand(st, need.value, fee, 0);
      if s.Some? { SendPays(h, f, st, s.value.(returnData := []), op, a); }
    }
  }

  lemma SendPays(h: Host, f: Frame, st: State, s: State, op: Byte, a: CallArgs)
    requires IsCall(op) && |st.stack| >= CallArity(op) && s.stack == st.stack && a == ArgsOf(op, st.stack)
    requires (a.inSize > 0 ==> a.inOffset + a.inSize <= |s.mem|) && Paid(st, s, CallFee(h, f, st, op))
    ensures CallPaid(h, f, st, op, SendCall(h, f, s, op, a))
  {
  }
}
