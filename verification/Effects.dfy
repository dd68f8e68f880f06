/** What the instructions do, by opcode and stack position: statements about `Step` that name none of
    the functions it is made of.
 */
module Effects {
  import opened Words
  import opened Instructions
  import opened Hosts
  import opened Machine
  import opened Code
  import opened Interpreter
  import opened Optimizer
  import opened Execution

  /** `data` is what memory holds from `offset` on; of an empty window the offset does not matter. */
  ghost predicate IsWindow(data: Bytes, mem: Bytes, offset: nat, size: nat)
  {
    && |data| == size && (size > 0 ==> offset + size <= |mem|)
    && forall i :: 0 <= i < size ==> data[i] == mem[offset + i]
  }

  /** Memory keeps its contents and may have grown by zeros. */
  ghost predicate Grown(before: Bytes, after: Bytes)
  {
    && |before| <= |after| && (forall i :: 0 <= i < |before| ==> after[i] == before[i])
    && forall i :: |before| <= i < |after| ==> after[i] == 0
  }

  lemma ExpandGrows(st: State, need: nat, base: nat, copied: nat)
    ensures var r := Expand(st, need, base, copied);
            r.Some? ==> (Grown(st.mem, r.value.mem) && need <= |r.value.mem| && r.value.stack == st.stack && r.value.trace == st.trace)
  {
    RoundUp32Facts(need);
  }

  lemma SliceIsWindow(mem: Bytes, offset: nat, size: nat)
    requires size > 0 ==> offset + size <= |mem|
    ensures IsWindow(Slice(mem, offset, size), mem, offset, size)
  {
  }

  // ---- Messages ----

  /** Where the windows of a call start on the stack: CALL and CALLCODE have the value before them. */
  function Windows(op: Byte): (k: nat)
  {
    if op == 0xf1 || op == 0xf2 then 3 else 2
  }

  predicate IsCall(op: Byte)
  {
    op == 0xf1 || op == 0xf2 || op == 0xf4 || op == 0xfa
  }

  /** Destination, input and output window of a message, by the stack of its sender. */
  ghost predicate Addressed(s: seq<Word>, op: Byte, st: State, msg: Message, slot: Slot)
  {
    var k := Windows(op);
    && |s| >= k + 4
    && msg.destination == s[1] % TWO_160
    && IsWindow(msg.input, st.mem, s[k], s[k + 1])
    && slot == CallSlot(s[k + 2], s[k + 3])
    && st.stack == s[k + 4..]
  }

  /** Who calls, with what value, and how the message is marked. */
  ghost predicate Marked(f: Frame, s: seq<Word>, op: Byte, msg: Message)
  {
    && |s| >= 3 && msg.depth == f.msg.depth + 1
    && (op == 0xf1 ==> msg.kind == Call && msg.sender == f.msg.destination && msg.value == s[2] && msg.isStatic == f.msg.isStatic)
    && (op == 0xf2 ==> msg.kind == CallCode && msg.sender == f.msg.destination && msg.value == s[2] && msg.isStatic == f.msg.isStatic)
    && (op == 0xf4 ==> msg.kind == DelegateCall && msg.sender == f.msg.sender && msg.value == f.msg.value && msg.isStatic == f.msg.isStatic)
    && (op == 0xfa ==> msg.kind == Call && msg.sender == f.msg.destination && msg.value == 0 && msg.isStatic)
  }

  /** The gas of a message: what is asked for, from Tangerine Whistle on at most all but one 64th of
      what there is, and the stipend on top when value is transferred. */
  ghost predicate Funded(f: Frame, s: seq<Word>, op: Byte, gasLeft: nat, msg: Message)
  {
    && |s| >= 3
    && var stipend := if (op == 0xf1 || op == 0xf2) && s[2] > 0 then 2300 else 0;
       var available := gasLeft + msg.gas - stipend;
       && msg.gas >= stipend
       && msg.gas - stipend == if f.rev >= 2 && s[0] > available - available / 64 then available - available / 64 else s[0]
  }

  /** All of that of one step. */
  ghost predicate CallSent(f: Frame, st: State, op: Byte, r: StepResult)
  {
    r.CallOut? ==>
      && Addressed(st.stack, op, r.st, r.msg, r.slot) && Marked(f, st.stack, op, r.msg)
      && Funded(f, st.stack, op, r.st.gas, r.msg) && Grown(st.mem, r.st.mem) && r.st.returnData == []
  }

  /** A call is made if its value is covered and the depth allows it, and else refused. */
  ghost predicate MadeOrRefused(h: Host, f: Frame, st: State, op: Byte, r: StepResult)
  {
    && (r.CallOut? || r.Next? ==> |st.stack| >= 3)
    && (r.CallOut? || r.Next? ==>
          (r.CallOut? <==>
             (f.msg.depth < 1024
              && ((op == 0xf1 || op == 0xf2) && st.stack[2] > 0 ==> h.balance(st.trace, f.msg.destination) >= st.stack[2]))))
    && (op == 0xf1 && f.msg.isStatic && |st.stack| >= 7 && st.stack[2] > 0 ==> !r.CallOut? && !r.Next?)
  }

  lemma SendCallEffect(h: Host, f: Frame, st: State, op: Byte, a: CallArgs)
    requires IsCall(op) && |st.stack| >= CallArity(op) && a == ArgsOf(op, st.stack)
    requires a.inSize > 0 ==> a.inOffset + a.inSize <= |st.mem|
    requires st.returnData == [] && (op == 0xf1 && f.msg.isStatic ==> a.value == 0)
    ensures var r := SendCall(h, f, st, op, a);
      CallSent(f, st, op, r) && MadeOrRefused(h, f, st, op, r) && (r.CallOut? ==> r.st.mem == st.mem)
  {
    SliceIsWindow(st.mem, a.inOffset, a.inSize);
  }

  lemma StepCallEffect(h: Host, f: Frame, st: State, op: Byte, cost: nat)
    requires IsCall(op) && KindOf(op).MessageCall? && |st.stack| >= CallArity(op)
    ensures var r := StepCall(h, f, st, op, cost); CallSent(f, st, op, r) && MadeOrRefused(h, f, st, op, r)
  {
    var a := ArgsOf(op, st.stack);
    var need := MaxNeed(a);
    if need.Some? && !(op == CALL && f.msg.isStatic && a.value != 0) {
      var base := CallBase(h, f, st.trace, op, cost, a);
      ExpandGrows(st, need.value, base, 0);
      var s := Expand(st, need.value, base, 0);
      if s.Some? { SendCallEffect(h, f, s.value.(returnData := []), op, a); }
    }
  }

  /** CALL, CALLCODE, DELEGATECALL and STATICCALL: the address is the second word; the input and then
      the output window follow, after the value if there is one; sender, value and mode by opcode. */
  lemma CallSends(h: Host, f: Frame, p: Program, st: State, op: Byte)
    requires Fetchable(p, st.pc) && op == p.code[st.pc] && IsCall(op)
    ensures CallSent(f, st, op, Step(h, f, p, st)) && MadeOrRefused(h, f, st, op, Step(h, f, p, st))
  {
    var r := Step(h, f, p, st);
    CallStep(h, f, p, st, op);
    if !r.Fault? { StepCallEffect(h, f, st, op, Cost(f.rev, op)); }
  }

  lemma CallStep(h: Host, f: Frame, p: Program, st: State, op: Byte)
    requires Fetchable(p, st.pc) && op == p.code[st.pc] && IsCall(op)
    ensures var r := Step(h, f, p, st);
      !r.Fault? ==> KindOf(op).MessageCall? && |st.stack| >= CallArity(op) && r == StepCall(h, f, st, op, Cost(f.rev, op))
  {
    if !Step(h, f, p, st).Fault? {
      CallRow(f.rev, op);
      HandlerRuns(h, f, p, st, op);
      PlainIs(h, f, st, op, Cost(f.rev, op));
    }
  }

  lemma CallRow(rev: Revision, op: Byte)
    requires IsCall(op)
    ensures KindOf(op) == MessageCall && !Control(op) && (Available(rev, op) ==> Required(rev, op) == Windows(op) + 4 == CallArity(op))
  {
  }

  lemma StepCreateEffect(h: Host, f: Frame, st: State, op: Byte)
    requires (op == 0xf0 || op == 0xf5) && KindOf(op).CreateAccount? && |st.stack| >= CreateArity(op)
    ensures CreateSent(f, st, op, StepCreate(h, f, st, op))
  {
    var offset, size := st.stack[1], st.stack[2];
    var need, base := MemNeed(offset, size), CreateBase(op, size);
    if need.Some? && base.Some? {
      ExpandGrows(st, need.value, base.value, 0);
      var s := Expand(st, need.value, base.value, 0);
      if s.Some? { SliceIsWindow(s.value.mem, offset, size); }
    }
  }

  /** The message of a creation, by the stack of its sender. */
  ghost predicate Creates(f: Frame, s: seq<Word>, op: Byte, st: State, msg: Message, slot: Slot)
  {
    && |s| >= (if op == 0xf5 then 4 else 3)
    && msg.kind == (if op == 0xf5 then Create2 else Create)
    && msg.value == s[0] && IsWindow(msg.input, st.mem, s[1], s[2])
    && msg.salt == (if op == 0xf5 then s[3] else 0)
    && msg.sender == f.msg.destination && msg.depth == f.msg.depth + 1 && !msg.isStatic
    && st.gas == (if f.rev >= 2 then (st.gas + msg.gas) / 64 else 0)
    && slot == CreateSlot && st.stack == s[if op == 0xf5 then 4 else 3..]
  }

  ghost predicate CreateSent(f: Frame, st: State, op: Byte, r: StepResult)
  {
    r.CallOut? ==> Creates(f, st.stack, op, r.st, r.msg, r.slot) && Grown(st.mem, r.st.mem) && r.st.returnData == []
  }

  /** CREATE and CREATE2: endowment, window of the code, and for CREATE2 the salt. */
  lemma CreateSends(h: Host, f: Frame, p: Program, st: State, op: Byte)
    requires Fetchable(p, st.pc) && op == p.code[st.pc] && (op == 0xf0 || op == 0xf5)
    ensures CreateSent(f, st, op, Step(h, f, p, st))
  {
    CreateStep(h, f, p, st, op);
    if Step(h, f, p, st).CallOut? { StepCreateEffect(h, f, st, op); }
  }

  lemma CreateStep(h: Host, f: Frame, p: Program, st: State, op: Byte)
    requires Fetchable(p, st.pc) && op == p.code[st.pc] && (op == 0xf0 || op == 0xf5)
    ensures var r := Step(h, f, p, st);
      r.CallOut? ==> KindOf(op).CreateAccount? && |st.stack| >= CreateArity(op) && r == StepCreate(h, f, st, op)
  {
    if !Step(h, f, p, st).Fault? {
      HandlerRuns(h, f, p, st, op);
      PlainIs(h, f, st, op, Cost(f.rev, op));
    }
  }

  // ---- Answers ----

  /** The output lands in the window as far as both reach; every other byte stays. */
  ghost predicate Delivered(before: Bytes, after: Bytes, offset: nat, size: nat, output: Bytes)
  {
    && |after| == |before|
    && forall i :: 0 <= i < |after| ==>
      after[i] == if offset <= i < offset + size && i - offset < |output| then output[i - offset] else before[i]
  }

  lemma ResumeEffect(out: State, msg: Message, slot: Slot, res: Result, trace: Trace)
    requires slot.CallSlot? && slot.size > 0 ==> slot.offset + slot.size <= |out.mem|
    requires res.gasLeft <= msg.gas
    ensures var s := Resume(out, msg, slot, res, trace);
      && |s.stack| == |out.stack| + 1 && s.stack[1..] == out.stack && s.returnData == res.output
      && s.gas == out.gas + res.gasLeft && s.pc == out.pc + 1
      && (slot.CallSlot? ==> s.stack[0] == (if res.status == Success then 1 else 0))
      && (slot.CallSlot? ==> Delivered(out.mem, s.mem, slot.offset, slot.size, res.output))
      && (slot.CreateSlot? ==> s.stack[0] == (if res.status == Success then res.created else 0) && s.mem == out.mem)
  {
  }

  /** After the answer to a message: the verdict is pushed, the output is kept, and of a call it is in
      the window while the rest of memory is as it was. */
  lemma AnswerTaken(h: Host, f: Frame, pooled: bool, st: State)
    requires Suitable(h, pooled) && Ready(f, pooled, st) && Fetchable(Load(f.code, pooled), st.pc)
    requires Step(h, f, Load(f.code, pooled), st).CallOut?
    ensures var r := Step(h, f, Load(f.code, pooled), st);
      && r.msg.gas <= INT63_MAX && Advance(h, f, pooled, st).Next?
      && var s, res := Advance(h, f, pooled, st).st, Nested(h, f.rev, pooled, st.trace, r.msg).0;
      && |s.stack| == |r.st.stack| + 1 && s.stack[1..] == r.st.stack && s.returnData == res.output
      && s.gas == r.st.gas + res.gasLeft && s.pc == st.pc + 1
      && (r.slot.CallSlot? ==> s.stack[0] == (if res.status == Success then 1 else 0))
      && (r.slot.CallSlot? ==> Delivered(r.st.mem, s.mem, r.slot.offset, r.slot.size, res.output))
      && (r.slot.CreateSlot? ==> s.stack[0] == (if res.status == Success then res.created else 0) && s.mem == r.st.mem)
  {
    NextReady(h, f, pooled, st);
    var r := Step(h, f, Load(f.code, pooled), st);
    var (res, trace) := Nested(h, f.rev, pooled, st.trace, r.msg);
    StepOnTrackCall(h, f, pooled, st);
    ResumeEffect(r.st, r.msg, r.slot, res, trace);
  }

  lemma StepOnTrackCall(h: Host, f: Frame, pooled: bool, st: State)
    requires Ready(f, pooled, st) && Fetchable(Load(f.code, pooled), st.pc)
    requires Step(h, f, Load(f.code, pooled), st).CallOut?
    ensures Step(h, f, Load(f.code, pooled), st).st.pc == st.pc
  {
    LoadedAs(f.code, pooled);
    StepOnTrack(h, f, Load(f.code, pooled), st);
  }

  /** A nested execution is an execution like any other: of the code the client finds, with the
      message's gas, depth, mode, sender and value, and as input what the caller sent, unless it is
      the code of a creation. */
  lemma CalleeExecutes(h: Host, rev: Revision, pooled: bool, trace: Trace, msg: Message, code: Bytes, receiver: Address, m: Message)
    requires Suitable(h, pooled) && msg.gas <= INT63_MAX && h.dispatch(trace + [Send(msg)], msg) == Enter(code, receiver)
    requires m.gas == msg.gas && m.depth == msg.depth && m.isStatic == msg.isStatic && m.sender == msg.sender
    requires m.value == msg.value && m.destination == receiver && m.salt == 0
    requires if msg.kind == Create || msg.kind == Create2 then m.kind == Create && m.input == [] else m.kind == Call && m.input == msg.input
    ensures Runnable(code, pooled)
    ensures var (inner, t) := Execute(h, rev, pooled, trace + [Send(msg)], m, code);
            var res := h.settle(t, msg, inner);
            Nested(h, rev, pooled, trace, msg) == (res, t + [Receive(res.status)])
  {
    assert m == CalleeMessage(msg, receiver);
  }

  // ---- Jumps and constants ----

  /** Where a jump goes: to a destination of the original code, or nowhere. */
  ghost predicate Jumps(code: Bytes, st: State, r: StepResult, dest: Word, stack: seq<Word>)
  {
    if dest <= 0x7FFF_FFFF_FFFF_FFFF && IsDest(code, dest) then r.Next? && r.st.pc == dest && r.st.stack == stack
    else r == Fault(BadJumpDestination, st.trace)
  }

  lemma DestIsVerified(code: Bytes, dest: Word)
    ensures Verified(DestsFrom(code, 0), dest) <==> dest <= 0x7FFF_FFFF_FFFF_FFFF && IsDest(code, dest)
  {
    DestsExact(code);
  }

  lemma PlainStep(h: Host, f: Frame, p: Program, st: State, op: Byte)
    requires Loaded(f.code, p) && OnTrack(f.code, p, st) && st.pc < |f.code| && op == f.code[st.pc] && !Synthetic(op)
    ensures var q := Load(f.code, false);
      && Fetchable(p, st.pc) && Fetchable(q, st.pc) && q.code[st.pc] == op && q.dests == DestsFrom(f.code, 0)
      && Step(h, f, p, st) == Step(h, f, q, st)
  {
    StepAgrees(h, f, p, st);
  }

  /** JUMP and JUMPI in the original code, whatever the optimiser made of them. */
  lemma JumpGoes(h: Host, f: Frame, p: Program, st: State)
    requires Loaded(f.code, p) && OnTrack(f.code, p, st) && st.pc < |f.code| && f.code[st.pc] == 0x56
    requires 1 <= |st.stack| <= STACK_LIMIT && st.gas >= 8
    ensures Fetchable(p, st.pc) && Jumps(f.code, st, Step(h, f, p, st), st.stack[0], st.stack[1..])
  {
    PlainStep(h, f, p, st, 0x56);
    StepAtJump(h, f, Load(f.code, false), st, 0x56);
    DestIsVerified(f.code, st.stack[0]);
  }

  /** On 0 the run goes on behind a JUMPI, whatever the destination; otherwise it jumps. */
  ghost predicate Branches(code: Bytes, st: State, r: StepResult)
  {
    && |st.stack| >= 2
    && if st.stack[1] == 0 then r.Next? && r.st.pc == st.pc + 1 && r.st.stack == st.stack[2..]
       else Jumps(code, st, r, st.stack[0], st.stack[2..])
  }

  lemma JumpiStep(code: Bytes, q: Program, st: State)
    requires q.dests == DestsFrom(code, 0) && 2 <= |st.stack| && st.gas >= 10
    ensures Branches(code, st, StepJump(q, st, 0x57, 10))
  {
    DestIsVerified(code, st.stack[0]);
  }

  lemma JumpiGoes(h: Host, f: Frame, p: Program, st: State)
    requires Loaded(f.code, p) && OnTrack(f.code, p, st) && st.pc < |f.code| && f.code[st.pc] == 0x57
    requires 2 <= |st.stack| <= STACK_LIMIT && st.gas >= 10
    ensures Fetchable(p, st.pc) && Branches(f.code, st, Step(h, f, p, st))
  {
    PlainStep(h, f, p, st, 0x57);
    StepAtJump(h, f, Load(f.code, false), st, 0x57);
    JumpiStep(f.code, Load(f.code, false), st);
  }

  lemma {:induction false} BEAtIsFromBE(s: Bytes, lo: nat, n: nat)
    requires lo + n <= |s|
    ensures BEAt(s, lo, n) == FromBE(s[lo..lo + n])
    decreases n
  {
    if n > 0 {
      BEAtIsFromBE(s, lo, n - 1);
      assert s[lo..lo + n][..n - 1] == s[lo..lo + n - 1];
    }
  }

  lemma ConstantRead(code: Bytes, pc: nat, n: nat)
    requires Boundary(code, pc) && pc < |code| && PushLength(code[pc]) == n && 1 <= n
    ensures PushedAt(Prepared(code), pc, n) == FromBE(Padded(code, pc + 1, n))
  {
    ConstantOf(code, pc);
    var s := code + Zeros(PADDING);
    BEAtIsFromBE(s, pc + 1, n);
    assert s[pc + 1..pc + 1 + n] == Padded(code, pc + 1, n);
  }

  ghost predicate Pushed(st: State, r: StepResult, n: nat, v: nat)
  {
    r.Next? && r.st.pc == st.pc + 1 + n && |r.st.stack| == |st.stack| + 1 && r.st.stack[0] == v && r.st.stack[1..] == st.stack
  }

  lemma PushStep(h: Host, f: Frame, q: Program, st: State, op: Byte, n: nat, v: nat)
    requires Fetchable(q, st.pc) && q.code[st.pc] == op && 1 <= n <= 32 && op == 0x5f + n && st.gas >= 3 && |st.stack| < STACK_LIMIT
    requires st.pc + n < |q.code| && PushedAt(q.code, st.pc, n) == v
    ensures Pushed(st, Step(h, f, q, st), n, v)
  {
    PushRow(op, n);
    StepAtPush(h, f, q, st, op);
  }

  lemma PushRow(op: Byte, n: nat)
    requires 1 <= n <= 32 && op == 0x5f + n
    ensures KindOf(op) == Push(n) && PushLength(op) == n
  {
  }

  /** PUSHn of the original code pushes the next `n` bytes of it as a big-endian number, zeros
      standing for those beyond its end, and goes on behind them. */
  lemma PushPushes(h: Host, f: Frame, p: Program, st: State, n: nat)
    requires Loaded(f.code, p) && OnTrack(f.code, p, st) && st.pc < |f.code| && 1 <= n <= 32 && f.code[st.pc] == 0x5f + n
    requires |st.stack| < STACK_LIMIT && st.gas >= 3
    ensures Fetchable(p, st.pc) && Pushed(st, Step(h, f, p, st), n, FromBE(Padded(f.code, st.pc + 1, n)))
  {
    var op: Byte := 0x5f + n;
    PushRow(op, n);
    PlainStep(h, f, p, st, op);
    ConstantRead(f.code, st.pc, n);
    PushStep(h, f, Load(f.code, false), st, op, n, FromBE(Padded(f.code, st.pc + 1, n)));
  }

  // ---- Stack, memory and host ----

  /** A step that is not a fault is the step of its handler. */
  lemma HandlerRuns(h: Host, f: Frame, p: Program, st: State, op: Byte)
    requires Fetchable(p, st.pc) && op == p.code[st.pc] && !Control(op) && !Step(h, f, p, st).Fault?
    ensures Available(f.rev, op) && |st.stack| >= Required(f.rev, op)
    ensures Step(h, f, p, st) == StepPlain(h, f, st, op, Cost(f.rev, op))
  {
  }

  /** The handler behind the dispatch. */
  lemma PlainIs(h: Host, f: Frame, st: State, op: Byte, cost: nat)
    requires Available(f.rev, op) && !Control(op) && |st.stack| >= Required(f.rev, op)
    ensures var r := StepPlain(h, f, st, op, cost);
      match KindOf(op)
      case Alu(_) => r == StepAlu(f, st, op, cost)
      case Env => r == StepEnv(h, f, st, op, cost)
      case Query => r == StepQuery(h, f, st, op, cost)
      case Copy => r == StepCopy(h, f, st, op, cost)
      case Mstore => r == StepMstore(st, op, cost)
      case Sha3 => r == StepSha3(h, st)
      case Sstore => r == StepSstore(h, f, st)
      case Log(n) => r == StepLog(f, st, n)
      case CreateAccount => r == StepCreate(h, f, st, op)
      case MessageCall => r == StepCall(h, f, st, op, cost)
      case Return => r == StepReturn(st, op, cost)
      case SelfDestruct => r == StepSelfDestruct(h, f, st, cost)
      case Pop => r == StepStack(st, op, cost)
      case Dup(_) => r == StepStack(st, op, cost)
      case Swap(_) => r == StepStack(st, op, cost)
      case _ => true
  {
  }

  lemma ReturnRow(rev: Revision, op: Byte)
    requires op == 0xf3 || op == 0xfd
    ensures KindOf(op) == Return && !Control(op) && (Available(rev, op) ==> Required(rev, op) == 2)
  {
  }

  lemma StackRow(rev: Revision, op: Byte)
    requires op == 0x50 || 0x80 <= op <= 0x9f
    ensures !Control(op) && Available(rev, op)
    ensures KindOf(op) == if op == 0x50 then Pop else if op <= 0x8f then Dup(op - 0x80) else Swap(op - 0x8f)
    ensures Required(rev, op) == if op == 0x50 then 1 else if op <= 0x8f then op - 0x7f else op - 0x8e
  {
  }

  lemma LogRow(rev: Revision, op: Byte, n: nat)
    requires n <= 4 && op == 0xa0 + n
    ensures KindOf(op) == Log(n) && !Control(op) && Available(rev, op) && Required(rev, op) == n + 2
  {
  }

  lemma MstoreRow(rev: Revision, op: Byte)
    requires op == 0x52 || op == 0x53
    ensures KindOf(op) == Mstore && !Control(op) && Available(rev, op) && Required(rev, op) == 2
  {
  }

  lemma QueryRow(rev: Revision, op: Byte)
    requires op == 0x31 || op == 0x35 || op == 0x3b || op == 0x3f || op == 0x40 || op == 0x54
    ensures KindOf(op) == Query && !Control(op) && (Available(rev, op) ==> Required(rev, op) == 1)
  {
  }

  /** What POP, DUPn and SWAPn do to the stack. */
  ghost predicate Moved(s: seq<Word>, t: seq<Word>, op: Byte)
  {
    && (op == 0x50 ==> |s| == |t| + 1 && forall i :: 0 <= i < |t| ==> t[i] == s[i + 1])
    && (0x80 <= op <= 0x8f ==> |s| > op - 0x80 && t == [s[op - 0x80]] + s)
    && (0x90 <= op <= 0x9f ==>
          var n := op - 0x8f;
          && |s| == |t| > n && t[0] == s[n] && t[n] == s[0]
          && forall i :: 0 < i < |s| && i != n ==> t[i] == s[i])
  }

  lemma StackEffect(st: State, op: Byte, cost: nat)
    requires (op == 0x50 && |st.stack| >= 1) || (0x80 <= op <= 0x8f && |st.stack| > op - 0x80) || (0x90 <= op <= 0x9f && |st.stack| > op - 0x8f)
    ensures var r := StepStack(st, op, cost); r.Next? ==> Moved(st.stack, r.st.stack, op)
  {
  }

  lemma StackMoves(h: Host, f: Frame, p: Program, st: State, op: Byte)
    requires Fetchable(p, st.pc) && op == p.code[st.pc] && (op == 0x50 || 0x80 <= op <= 0x9f) && Step(h, f, p, st).Next?
    ensures Moved(st.stack, Step(h, f, p, st).st.stack, op)
  {
    StackRow(f.rev, op);
    HandlerRuns(h, f, p, st, op);
    PlainIs(h, f, st, op, Cost(f.rev, op));
    StackEffect(st, op, Cost(f.rev, op));
  }

  /** `n` bytes of the memory make up this number, and the others are as before or zeros. */
  ghost predicate Stored(before: Bytes, after: Bytes, at: nat, n: nat, v: nat)
  {
    && at + n <= |after| && |before| <= |after| && FromBE(after[at..at + n]) == v
    && forall i :: 0 <= i < |after| && !(at <= i < at + n) ==> after[i] == if i < |before| then before[i] else 0
  }

  /** MSTORE writes the word big-endian and MSTORE8 its last byte at the offset modulo 2^32. */
  ghost predicate Wrote(st: State, s: State, op: Byte)
  {
    && |st.stack| >= 2 && s.stack == st.stack[2..]
    && (op == 0x52 ==> Stored(st.mem, s.mem, st.stack[0] % TWO_32, 32, st.stack[1]))
    && (op == 0x53 ==> Stored(st.mem, s.mem, st.stack[0] % TWO_32, 1, st.stack[1] % 256))
  }

  lemma StoreWrites(h: Host, f: Frame, p: Program, st: State, op: Byte)
    requires Fetchable(p, st.pc) && op == p.code[st.pc] && (op == 0x52 || op == 0x53) && Step(h, f, p, st).Next?
    ensures Wrote(st, Step(h, f, p, st).st, op)
  {
    MstoreRow(f.rev, op);
    HandlerRuns(h, f, p, st, op);
    PlainIs(h, f, st, op, Cost(f.rev, op));
    MstoreEffect(st, op, Cost(f.rev, op));
  }

  lemma MstoreEffect(st: State, op: Byte, cost: nat)
    requires (op == 0x52 || op == 0x53) && KindOf(op).Mstore? && |st.stack| >= 2 && StepMstore(st, op, cost).Next?
    ensures Wrote(st, StepMstore(st, op, cost).st, op)
  {
    var v := st.stack[1];
    var data := if op == 0x52 then WordToBytes(v) else [v % 256];
    StoredNumber(v, data, op);
    StoreEffect(st, data, cost);
  }

  lemma StoredNumber(v: Word, data: Bytes, op: Byte)
    requires data == if op == 0x52 then WordToBytes(v) else [v % 256]
    ensures FromBE(data) == if op == 0x52 then v else v % 256
  {
    WordRoundTrip(v);
    assert op != 0x52 ==> data[..0] == [];
  }

  lemma StoreIs(st: State, data: Bytes, cost: nat) returns (grown: Bytes)
    requires |st.stack| >= 2 && StepStore(st, data, cost).Next?
    ensures var s := StepStore(st, data, cost).st; var at := Wrap32(st.stack[0]);
      Grown(st.mem, grown) && at + |data| <= |grown| && s.mem == Splice(grown, at, data) && s.stack == st.stack[2..]
  {
    var offset: nat := st.stack[0];
    ExpandGrows(st, offset + |data|, cost, 0);
    grown := Expand(st, offset + |data|, cost, 0).value.mem;
  }

  lemma StoreEffect(st: State, data: Bytes, cost: nat)
    requires |st.stack| >= 2 && StepStore(st, data, cost).Next?
    ensures var s := StepStore(st, data, cost).st;
      s.stack == st.stack[2..] && Stored(st.mem, s.mem, st.stack[0] % TWO_32, |data|, FromBE(data))
  {
    var grown := StoreIs(st, data, cost);
    SpliceStores(st.mem, grown, Wrap32(st.stack[0]), data);
  }

  lemma SpliceStores(before: Bytes, grown: Bytes, at: nat, data: Bytes)
    requires Grown(before, grown) && at + |data| <= |grown|
    ensures Stored(before, Splice(grown, at, data), at, |data|, FromBE(data))
  {
    SpliceData(grown, at, data);
    SpliceFrame(before, grown, at, data);
  }

  lemma SpliceData(grown: Bytes, at: nat, data: Bytes)
    requires at + |data| <= |grown|
    ensures Splice(grown, at, data)[at..at + |data|] == data
  {
  }

  lemma SpliceFrame(before: Bytes, grown: Bytes, at: nat, data: Bytes)
    requires Grown(before, grown) && at + |data| <= |grown|
    ensures var after := Splice(grown, at, data);
      forall i :: 0 <= i < |after| && !(at <= i < at + |data|) ==> after[i] == if i < |before| then before[i] else 0
  {
  }

  /** SHA3 hashes the window given by the two words on top. */
  ghost predicate Hashed(h: Host, st: State, s: State)
  {
    && |st.stack| >= 2 && Grown(st.mem, s.mem)
    && (st.stack[1] > 0 ==> st.stack[0] + st.stack[1] <= |s.mem|)
    && s.stack == [h.keccak(Padded(s.mem, st.stack[0], st.stack[1]))] + st.stack[2..]
  }

  lemma Sha3Hashes(h: Host, f: Frame, p: Program, st: State)
    requires Fetchable(p, st.pc) && p.code[st.pc] == 0x20 && Step(h, f, p, st).Next?
    ensures Hashed(h, st, Step(h, f, p, st).st)
  {
    HandlerRuns(h, f, p, st, 0x20);
    PlainIs(h, f, st, 0x20, Cost(f.rev, 0x20));
    Sha3Effect(h, st);
  }

  lemma Sha3Effect(h: Host, st: State)
    requires |st.stack| >= 2 && StepSha3(h, st).Next?
    ensures Hashed(h, st, StepSha3(h, st).st)
  {
    var offset, size := st.stack[0], st.stack[1];
    var need := MemNeed(offset, size).value;
    ExpandGrows(st, need, 30 + WordGas(size, 6), 0);
    var s := Expand(st, need, 30 + WordGas(size, 6), 0).value;
    assert Slice(s.mem, offset, size) == Padded(s.mem, offset, size);
  }

  /** RETURN and REVERT hand out the window given by the two words on top. */
  ghost predicate HandedOut(st: State, op: Byte, r: StepResult)
  {
    && r.Halt? && r.reverted == (op == 0xfd) && r.st.trace == st.trace && |st.stack| >= 2
    && Grown(st.mem, r.st.mem) && IsWindow(r.output, r.st.mem, st.stack[0], st.stack[1])
  }

  lemma ReturnGives(h: Host, f: Frame, p: Program, st: State, op: Byte)
    requires Fetchable(p, st.pc) && op == p.code[st.pc] && (op == 0xf3 || op == 0xfd) && !Step(h, f, p, st).Fault?
    ensures HandedOut(st, op, Step(h, f, p, st))
  {
    ReturnRow(f.rev, op);
    HandlerRuns(h, f, p, st, op);
    PlainIs(h, f, st, op, Cost(f.rev, op));
    ReturnEffect(st, op, Cost(f.rev, op));
  }

  lemma ReturnEffect(st: State, op: Byte, cost: nat)
    requires |st.stack| >= 2 && !StepReturn(st, op, cost).Fault?
    ensures HandedOut(st, op, StepReturn(st, op, cost))
  {
    var offset, size := st.stack[0], st.stack[1];
    var need := MemNeed(offset, size).value;
    ExpandGrows(st, need, cost, 0);
    SliceIsWindow(Expand(st, need, cost, 0).value.mem, offset, size);
  }

  /** LOGn logs the window given by the two words on top, with the `n` words below them as topics. */
  ghost predicate Logged(f: Frame, st: State, n: nat, s: State)
  {
    && |st.stack| >= n + 2 && s.stack == st.stack[n + 2..] && Grown(st.mem, s.mem) && !f.msg.isStatic
    && |s.trace| == |st.trace| + 1 && s.trace[..|st.trace|] == st.trace
    && var e := s.trace[|st.trace|];
    && e.EmitLog? && e.account == f.msg.destination && e.topics == st.stack[2..n + 2]
    && IsWindow(e.data, s.mem, st.stack[0], st.stack[1])
  }

  lemma LogLogs(h: Host, f: Frame, p: Program, st: State, n: nat)
    requires Fetchable(p, st.pc) && n <= 4 && p.code[st.pc] == 0xa0 + n && Step(h, f, p, st).Next?
    ensures Logged(f, st, n, Step(h, f, p, st).st)
  {
    var op := p.code[st.pc];
    LogRow(f.rev, op, n);
    HandlerRuns(h, f, p, st, op);
    PlainIs(h, f, st, op, Cost(f.rev, op));
    LogEffect(f, st, n);
  }

  lemma LogEffect(f: Frame, st: State, n: nat)
    requires |st.stack| >= n + 2 && StepLog(f, st, n).Next?
    ensures Logged(f, st, n, StepLog(f, st, n).st)
  {
    var offset, size := st.stack[0], st.stack[1];
    var need := MemNeed(offset, size).value;
    ExpandGrows(st, need, LogBase(n, size), 0);
    SliceIsWindow(Expand(st, need, LogBase(n, size), 0).value.mem, offset, size);
  }

  /** SSTORE writes the second word under the first, SELFDESTRUCT names the low 160 bits of the top. */
  ghost predicate Changed(f: Frame, st: State, op: Byte, r: StepResult)
  {
    && !f.msg.isStatic && |st.stack| >= 1
    && (op == 0x55 ==> r.Next? && |st.stack| >= 2 && r.st.stack == st.stack[2..])
    && (op == 0x55 ==> r.st.trace == st.trace + [SetStorage(f.msg.destination, st.stack[0], st.stack[1])])
    && (op == 0xff ==> r.Halt? && !r.reverted && r.output == [])
    && (op == 0xff ==> r.st.trace == st.trace + [Destruct(f.msg.destination, st.stack[0] % TWO_160)])
  }

  lemma StoreChanges(h: Host, f: Frame, p: Program, st: State)
    requires Fetchable(p, st.pc) && p.code[st.pc] == 0x55 && !Step(h, f, p, st).Fault?
    ensures Changed(f, st, 0x55, Step(h, f, p, st))
  {
    HandlerRuns(h, f, p, st, 0x55);
    PlainIs(h, f, st, 0x55, Cost(f.rev, 0x55));
    assert Changed(f, st, 0x55, StepSstore(h, f, st));
  }

  lemma DestructChanges(h: Host, f: Frame, p: Program, st: State)
    requires Fetchable(p, st.pc) && p.code[st.pc] == 0xff && !Step(h, f, p, st).Fault?
    ensures Changed(f, st, 0xff, Step(h, f, p, st))
  {
    HandlerRuns(h, f, p, st, 0xff);
    PlainIs(h, f, st, 0xff, Cost(f.rev, 0xff));
    assert Changed(f, st, 0xff, StepSelfDestruct(h, f, st, Cost(f.rev, 0xff)));
  }

  /** The byte a copy instruction reads for position `i`: of the input, the code, the data returned
      last, or the code of another account; 0 beyond its end. */
  ghost predicate Copies(source: Bytes, before: Bytes, after: Bytes, offset: Word, index: Word, size: Word)
  {
    && |before| <= |after| && (size > 0 ==> offset + size <= |after|)
    && forall i :: 0 <= i < |after| ==>
      after[i] == if offset <= i < offset + size then (if index + (i - offset) < |source| then source[index + (i - offset)] else 0)
                  else if i < |before| then before[i] else 0
  }

  ghost predicate Copied(h: Host, f: Frame, st: State, op: Byte, t: State)
  {
    var s := st.stack;
    && |s| >= (if op == 0x3c then 4 else 3) && t.stack == s[if op == 0x3c then 4 else 3..]
    && (op == 0x37 ==> Copies(f.msg.input, st.mem, t.mem, s[0], s[1], s[2]))
    && (op == 0x39 ==> Copies(f.code, st.mem, t.mem, s[0], s[1], s[2]))
    && (op == 0x3e ==> Copies(st.returnData, st.mem, t.mem, s[0], s[1], s[2]))
    && (op == 0x3c ==> Copies(h.code(st.trace, s[0] % TWO_160), st.mem, t.mem, s[1], if s[2] < TWO_64 then s[2] else TWO_64 - 1, s[3]))
  }

  lemma CopyEffect(st: State, a: CopyArgs, cost: nat)
    requires a.arity <= |st.stack| && CopyIn(st, a, cost).Next?
    ensures var s := CopyIn(st, a, cost).st; Copies(a.data, st.mem, s.mem, a.offset, a.index, a.size) && s.stack == st.stack[a.arity..]
  {
    var need := MemNeed(a.offset, a.size).value;
    ExpandGrows(st, need, cost, a.size);
  }

  lemma CopyStep(h: Host, f: Frame, p: Program, st: State, op: Byte)
    requires Fetchable(p, st.pc) && op == p.code[st.pc] && (op == 0x37 || op == 0x39 || op == 0x3c || op == 0x3e) && Step(h, f, p, st).Next?
    ensures KindOf(op).Copy? && |st.stack| >= (if op == EXTCODECOPY then 4 else 3)
    ensures var a := CopyOf(h, f, st, op); CopyIn(st, a, Cost(f.rev, op)).Next? && Step(h, f, p, st) == CopyIn(st, a, Cost(f.rev, op))
    ensures op == 0x3e ==> st.stack[1] + st.stack[2] <= |st.returnData|
  {
    HandlerRuns(h, f, p, st, op);
    PlainIs(h, f, st, op, Cost(f.rev, op));
  }

  /** CALLDATACOPY, CODECOPY and RETURNDATACOPY take memory offset, data offset and size from the top;
      EXTCODECOPY has the account above them and cuts the offset to 64 bits. */
  lemma CopyCopies(h: Host, f: Frame, p: Program, st: State, op: Byte)
    requires Fetchable(p, st.pc) && op == p.code[st.pc] && (op == 0x37 || op == 0x39 || op == 0x3c || op == 0x3e) && Step(h, f, p, st).Next?
    ensures Copied(h, f, st, op, Step(h, f, p, st).st)
    ensures op == 0x3e ==> st.stack[1] + st.stack[2] <= |st.returnData|
  {
    CopyStep(h, f, p, st, op);
    CopyEffect(st, CopyOf(h, f, st, op), Cost(f.rev, op));
  }

  /** The instructions that replace the top by what the host or the input has for it. */
  ghost predicate Asked(h: Host, f: Frame, st: State, op: Byte, t: State)
  {
    && |st.stack| >= 1 && |t.stack| == |st.stack| && t.stack[1..] == st.stack[1..] && t.mem == st.mem && t.trace == st.trace
    && var x, v := st.stack[0], t.stack[0];
    && (op == 0x31 ==> v == h.balance(st.trace, x % TWO_160))
    && (op == 0x35 ==> v == FromBE(Padded(f.msg.input, x, 32)))
    && (op == 0x3b ==> v == |h.code(st.trace, x % TWO_160)| % TWO_64)
    && (op == 0x3f ==> v == h.codeHash(st.trace, x % TWO_160))
    && (op == 0x40 ==> v == if x < h.tx.number <= x + 256 then h.blockHash(st.trace, x) else 0)
    && (op == 0x54 ==> v == h.storage(st.trace, f.msg.destination, x))
  }

  lemma QueryAsks(h: Host, f: Frame, p: Program, st: State, op: Byte)
    requires Fetchable(p, st.pc) && op == p.code[st.pc] && Step(h, f, p, st).Next?
    requires op == 0x31 || op == 0x35 || op == 0x3b || op == 0x3f || op == 0x40 || op == 0x54
    ensures Asked(h, f, st, op, Step(h, f, p, st).st)
  {
    QueryRow(f.rev, op);
    HandlerRuns(h, f, p, st, op);
    PlainIs(h, f, st, op, Cost(f.rev, op));
    QueryEffect(h, f, st, op, Cost(f.rev, op));
  }

  lemma QueryEffect(h: Host, f: Frame, st: State, op: Byte, cost: nat)
    requires KindOf(op).Query? && |st.stack| >= 1 && StepQuery(h, f, st, op, cost).Next?
    ensures Asked(h, f, st, op, StepQuery(h, f, st, op, cost).st)
  {
  }

  /** The arithmetic instructions: ADDMOD and MULMOD take three words, ISZERO and NOT one, the others
      two, and push the value `Arithmetic` is about. */
  predicate IsArithmetic(op: Byte)
  {
    0x01 <= op <= 0x0b || 0x10 <= op <= 0x1d
  }

  function Operands(op: Byte): (n: nat)
  {
    if op == 0x08 || op == 0x09 then 3 else if op == 0x15 || op == 0x19 then 1 else 2
  }

  lemma ArithmeticRow(rev: Revision, op: Byte)
    requires IsArithmetic(op)
    ensures KindOf(op) == Alu(Operands(op)) && !Control(op) && (Available(rev, op) ==> Required(rev, op) == Operands(op))
  {
  }

  lemma ArithmeticPushes(h: Host, f: Frame, p: Program, st: State, op: Byte)
    requires Fetchable(p, st.pc) && op == p.code[st.pc] && IsArithmetic(op) && Step(h, f, p, st).Next?
    ensures KindOf(op) == Alu(Operands(op)) && |st.stack| >= Operands(op)
    ensures var t := Step(h, f, p, st).st; t.stack == [AluValue(op, st.stack)] + st.stack[Operands(op)..] && t.mem == st.mem && t.trace == st.trace
  {
    ArithmeticRow(f.rev, op);
    HandlerRuns(h, f, p, st, op);
    PlainIs(h, f, st, op, Cost(f.rev, op));
  }

  /** The instructions that push a value of the environment; GAS after its own charge. */
  predicate IsEnvironment(op: Byte)
  {
    op == 0x30 || 0x32 <= op <= 0x34 || op == 0x36 || op == 0x38 || op == 0x3a || op == 0x3d || 0x41 <= op <= 0x47 || 0x58 <= op <= 0x5a
  }

  lemma EnvironmentPushed(h: Host, f: Frame, p: Program, st: State, op: Byte)
    requires Fetchable(p, st.pc) && op == p.code[st.pc] && IsEnvironment(op) && Step(h, f, p, st).Next?
    ensures var t := Step(h, f, p, st).st;
      |t.stack| == |st.stack| + 1 && t.stack[1..] == st.stack && Environment(h, f, st, t.gas, op, t.stack[0])
  {
    EnvironmentRow(f.rev, op);
    HandlerRuns(h, f, p, st, op);
    PlainIs(h, f, st, op, Cost(f.rev, op));
    EnvironmentEffect(h, f, st, op, Cost(f.rev, op));
  }

  lemma EnvironmentRow(rev: Revision, op: Byte)
    requires IsEnvironment(op)
    ensures KindOf(op) == Env && !Control(op)
  {
  }

  lemma EnvironmentEffect(h: Host, f: Frame, st: State, op: Byte, cost: nat)
    requires KindOf(op).Env? && StepEnv(h, f, st, op, cost).Next?
    ensures var t := StepEnv(h, f, st, op, cost).st;
      |t.stack| == |st.stack| + 1 && t.stack[1..] == st.stack && Environment(h, f, st, t.gas, op, t.stack[0])
  {
  }

  ghost predicate Environment(h: Host, f: Frame, st: State, gasLeft: nat, op: Byte, v: Word)
  {
    && (op == 0x30 ==> v == f.msg.destination) && (op == 0x32 ==> v == h.tx.origin) && (op == 0x33 ==> v == f.msg.sender)
    && (op == 0x34 ==> v == f.msg.value) && (op == 0x36 ==> v == |f.msg.input| % TWO_64) && (op == 0x38 ==> v == |f.code| % TWO_64)
    && (op == 0x3a ==> v == h.tx.gasPrice) && (op == 0x3d ==> v == |st.returnData| % TWO_64) && (op == 0x41 ==> v == h.tx.coinbase)
    && (op == 0x42 ==> v == h.tx.timestamp) && (op == 0x43 ==> v == h.tx.number % TWO_64) && (op == 0x44 ==> v == h.tx.difficulty)
    && (op == 0x45 ==> v == h.tx.gasLimit) && (op == 0x46 ==> v == h.tx.chainId)
    && (op == 0x47 ==> v == h.balance(st.trace, f.msg.destination))
    && (op == 0x58 ==> v == st.pc % TWO_64) && (op == 0x59 ==> v == |st.mem| % TWO_64) && (op == 0x5a ==> v == gasLeft % TWO_64)
  }
}
