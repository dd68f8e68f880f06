/** When an instruction goes through, and how far memory grows: by opcode and stack position. */
module Outcomes {
  import opened Words
  import opened Instructions
  import opened Hosts
  import opened Machine
  import opened Code
  import opened Interpreter
  import opened Optimizer
  import opened Execution
  import opened Effects
  import opened Fees
  import A = Alu

  // ---- Memory ----

  /** Gas in hand and paid for memory fits 63 bits, as in every reachable state. */
  ghost predicate Bounded(st: State)
  {
    st.gas + GasForMem(|st.mem|) <= INT63_MAX && |st.mem| % 32 == 0
  }

  /** Memory has grown to whole words that hold `reach` bytes, and no further. */
  predicate Fits(before: nat, after: nat, reach: nat)
  {
    before <= after && reach <= after && after % 32 == 0 && (after == before || after < reach + 32)
  }

  function Size(before: nat, reach: nat): (after: nat)
    requires before % 32 == 0
    ensures Fits(before, after, reach)
  {
    RoundUp32Facts(reach);
    if reach <= before then before else RoundUp32(reach)
  }

  /** The gas covers a fee and the memory up to `reach`, however far that is. */
  ghost predicate Affordable(st: State, fee: nat, reach: nat)
    requires |st.mem| % 32 == 0
  {
    st.gas + GasForMem(|st.mem|) >= fee + GasForMem(Size(|st.mem|, reach))
  }

  /** What a step comes to that is in order or not, has a price and reaches into memory. */
  ghost predicate Outcome(st: State, r: StepResult, ok: bool, fee: nat, reach: nat)
    requires |st.mem| % 32 == 0
  {
    && (r.Fault? <==> !(ok && Affordable(st, fee, reach)))
    && (r.Fault? && ok ==> r.error == OutOfGas)
    && (!r.Fault? ==> Fits(|st.mem|, |r.st.mem|, reach))
  }

  lemma LargeMemory()
    ensures GasForMem(TWO_63) > INT63_MAX
  {
    SquareIsProduct(0x400_0000_0000_0000);
  }

  /** The 63-bit guards refuse nothing that could be paid. */
  lemma TooFar(st: State, fee: nat, reach: nat)
    requires Bounded(st) && reach > INT63_MAX
    ensures !Affordable(st, fee, reach)
  {
    LargeMemory();
    if reach <= |st.mem| { GasForMemMonotone(TWO_63, |st.mem|); } else { GasForMemMonotone(TWO_63, RoundUp32(reach)); }
  }

  lemma ExpandOutcome(st: State, need: nat, base: nat, copied: nat)
    requires Bounded(st)
    ensures var r := Expand(st, need, base, copied); var fee := base + WordGas(copied, 3);
      (r.Some? <==> Affordable(st, fee, need)) && (r.Some? ==> Fits(|st.mem|, |r.value.mem|, need))
  {
    RoundUp32Facts(need);
    GrowthIs(|st.mem|, RoundUp32(need), Size(|st.mem|, need));
  }

  lemma ExpandFree(st: State, need: nat, fee: nat)
    requires Bounded(st)
    ensures var r := Expand(st, need, fee, 0);
      (r.Some? <==> Affordable(st, fee, need)) && (r.Some? ==> Fits(|st.mem|, |r.value.mem|, need))
  {
    ExpandOutcome(st, need, fee, 0);
  }

  /** What is left covers what else could have been paid. */
  lemma ExpandRest(st: State, need: nat, fee: nat, more: nat)
    requires Bounded(st)
    ensures var r := Expand(st, need, fee, 0);
      && (r.None? ==> !Affordable(st, fee + more, need))
      && (r.Some? ==> r.value.gas <= st.gas && (r.value.gas >= more <==> Affordable(st, fee + more, need)))
  {
    ExpandFree(st, need, fee);
    ExpandPaid(st, need, fee, 0);
    var r := Expand(st, need, fee, 0);
    if r.Some? {
      SizeIs(|st.mem|, |r.value.mem|, need);
      GasForMemMonotone(|st.mem|, |r.value.mem|);
    }
  }

  lemma SizeIs(before: nat, after: nat, reach: nat)
    requires before % 32 == 0 && Fits(before, after, reach)
    ensures after == Size(before, reach)
  {
  }

  lemma NoGrowth(st: State, fee: nat)
    requires Bounded(st)
    ensures Affordable(st, fee, 0) <==> st.gas >= fee
  {
  }

  lemma TooDear(st: State, fee: nat, reach: nat)
    requires Bounded(st) && fee > INT63_MAX
    ensures !Affordable(st, fee, reach)
  {
    GasForMemMonotone(|st.mem|, Size(|st.mem|, reach));
  }

  /** The first byte past a window; an empty one touches nothing. */
  function Past(offset: Word, size: Word): (n: nat)
  {
    if size == 0 then 0 else offset + size
  }

  lemma NeedIsPast(offset: Word, size: Word)
    ensures var need := MemNeed(offset, size);
      (need.Some? <==> Past(offset, size) <= INT63_MAX) && (need.Some? ==> need.value == Past(offset, size))
  {
  }

  // ---- Handlers ----

  lemma ChargeOutcome(st: State, fee: nat)
    requires Bounded(st)
    ensures Charge(st, fee).Some? <==> Affordable(st, fee, 0)
    ensures Fits(|st.mem|, |st.mem|, 0)
  {
    NoGrowth(st, fee);
  }

  /** The result of an access comes from its expansion. */
  ghost predicate From(r: StepResult, e: Option<State>)
  {
    (r.Fault? <==> e.None?) && (r.Fault? ==> r.error == OutOfGas) && (!r.Fault? ==> |r.st.mem| == |e.value.mem|)
  }

  lemma MloadFrom(st: State, offset: nat, fee: nat)
    requires |st.stack| >= 1 && offset == st.stack[0]
    ensures var r := StepMload(st, fee);
      if offset > INT63_MAX then r == Fault(OutOfGas, st.trace) else From(r, Expand(st, offset + 32, fee, 0))
  {
  }

  lemma StoreFrom(st: State, offset: nat, data: Bytes, fee: nat)
    requires |st.stack| >= 2 && offset == st.stack[0]
    ensures var r := StepStore(st, data, fee);
      if offset > INT63_MAX then r == Fault(OutOfGas, st.trace) else From(r, Expand(st, offset + |data|, fee, 0))
  {
  }

  lemma AccessOutcome(st: State, offset: nat, n: nat, fee: nat, r: StepResult)
    requires Bounded(st)
    requires if offset > INT63_MAX then r == Fault(OutOfGas, st.trace) else From(r, Expand(st, offset + n, fee, 0))
    ensures Outcome(st, r, true, fee, offset + n)
  {
    if offset > INT63_MAX { TooFar(st, fee, offset + n); } else { ExpandFree(st, offset + n, fee); }
  }

  lemma MloadOutcome(st: State, fee: nat)
    requires Bounded(st) && |st.stack| >= 1
    ensures var offset: nat := st.stack[0]; Outcome(st, StepMload(st, fee), true, fee, offset + 32)
  {
    MloadFrom(st, st.stack[0], fee);
    AccessOutcome(st, st.stack[0], 32, fee, StepMload(st, fee));
  }

  lemma StoreOutcome(st: State, data: Bytes, fee: nat)
    requires Bounded(st) && |st.stack| >= 2
    ensures var offset: nat := st.stack[0]; Outcome(st, StepStore(st, data, fee), true, fee, offset + |data|)
  {
    StoreFrom(st, st.stack[0], data, fee);
    AccessOutcome(st, st.stack[0], |data|, fee, StepStore(st, data, fee));
  }

  lemma MstoreOutcome(st: State, op: Byte, fee: nat)
    requires Bounded(st) && |st.stack| >= 2 && (op == 0x52 || op == 0x53)
    ensures var offset: nat := st.stack[0]; Outcome(st, StepMstore(st, op, fee), true, fee, offset + if op == 0x52 then 32 else 1)
  {
    StoreOutcome(st, if op == 0x52 then WordToBytes(st.stack[1]) else [st.stack[1] % 256], fee);
  }

  lemma Sha3Outcome(h: Host, st: State)
    requires Bounded(st) && |st.stack| >= 2
    ensures Outcome(st, StepSha3(h, st), true, 30 + 6 * Words32(st.stack[1]), Past(st.stack[0], st.stack[1]))
  {
    var fee, reach := 30 + 6 * Words32(st.stack[1]), Past(st.stack[0], st.stack[1]);
    NeedIsPast(st.stack[0], st.stack[1]);
    ExpandOutcome(st, reach, fee, 0);
    if fee > INT63_MAX { TooDear(st, fee, reach); }
    if reach > INT63_MAX { TooFar(st, fee, reach); }
  }

  lemma LogOutcome(f: Frame, st: State, n: nat)
    requires Bounded(st) && |st.stack| >= n + 2
    ensures var size: nat := st.stack[1];
      Outcome(st, StepLog(f, st, n), !f.msg.isStatic, 375 + 375 * n + 8 * size, Past(st.stack[0], st.stack[1]))
  {
    var size: nat := st.stack[1];
    var fee, reach := 375 + 375 * n + 8 * size, Past(st.stack[0], st.stack[1]);
    NeedIsPast(st.stack[0], st.stack[1]);
    ExpandOutcome(st, reach, fee, 0);
    if fee > INT63_MAX { TooDear(st, fee, reach); }
    if reach > INT63_MAX { TooFar(st, fee, reach); }
  }

  lemma ReturnOutcome(st: State, op: Byte, fee: nat)
    requires Bounded(st) && |st.stack| >= 2
    ensures Outcome(st, StepReturn(st, op, fee), true, fee, Past(st.stack[0], st.stack[1]))
  {
    var reach := Past(st.stack[0], st.stack[1]);
    NeedIsPast(st.stack[0], st.stack[1]);
    ExpandOutcome(st, reach, fee, 0);
    if reach > INT63_MAX { TooFar(st, fee, reach); }
  }

  lemma CopyInOutcome(st: State, a: CopyArgs, cost: nat)
    requires Bounded(st) && a.arity <= |st.stack|
    ensures Outcome(st, CopyIn(st, a, cost), true, cost + 3 * Words32(a.size), Past(a.offset, a.size))
  {
    var fee, reach := cost + 3 * Words32(a.size), Past(a.offset, a.size);
    NeedIsPast(a.offset, a.size);
    ExpandOutcome(st, reach, cost, a.size);
    if reach > INT63_MAX { TooFar(st, fee, reach); }
  }

  lemma CreateOutcome(h: Host, f: Frame, st: State, op: Byte)
    requires Bounded(st) && (op == 0xf0 || op == 0xf5) && |st.stack| >= (if op == 0xf5 then 4 else 3)
    ensures var fee := 32000 + if op == 0xf5 then 6 * Words32(st.stack[2]) else 0;
      Outcome(st, StepCreate(h, f, st, op), !f.msg.isStatic, fee, Past(st.stack[1], st.stack[2]))
  {
    var reach := Past(st.stack[1], st.stack[2]);
    var fee := 32000 + if op == 0xf5 then 6 * Words32(st.stack[2]) else 0;
    NeedIsPast(st.stack[1], st.stack[2]);
    ExpandOutcome(st, reach, fee, 0);
    if reach > INT63_MAX { TooFar(st, fee, reach); }
    if fee > INT63_MAX { TooDear(st, fee, reach); }
  }

  /** The larger of the two windows of a call. */
  function CallReach(op: Byte, s: seq<Word>): (n: nat)
    requires IsCall(op) && |s| >= Windows(op) + 4
  {
    var k := Windows(op);
    var input, output := Past(s[k], s[k + 1]), Past(s[k + 2], s[k + 3]);
    if input < output then output else input
  }

  lemma CallNeed(op: Byte, s: seq<Word>)
    requires IsCall(op) && |s| >= Windows(op) + 4
    ensures var need := MaxNeed(ArgsOf(op, s));
      (need.Some? <==> CallReach(op, s) <= INT63_MAX) && (need.Some? ==> need.value == CallReach(op, s))
  {
    var k := Windows(op);
    NeedIsPast(s[k], s[k + 1]);
    NeedIsPast(s[k + 2], s[k + 3]);
  }

  /** Before Tangerine Whistle the gas asked for has to be there; from then on what is there is enough. */
  lemma SendOutcome(h: Host, f: Frame, st: State, op: Byte, a: CallArgs)
    requires |st.stack| >= CallArity(op) && (a.inSize > 0 ==> a.inOffset + a.inSize <= |st.mem|) && st.gas <= INT63_MAX
    ensures var r := SendCall(h, f, st, op, a);
      (r.Fault? <==> f.rev < 2 && st.gas < a.gas) && (r.Fault? ==> r.error == OutOfGas) && (!r.Fault? ==> r.st.mem == st.mem)
  {
  }

  lemma CallOutcome(h: Host, f: Frame, st: State, op: Byte, cost: nat)
    requires Bounded(st) && IsCall(op) && KindOf(op).MessageCall? && |st.stack| >= Windows(op) + 4 && Available(f.rev, op) && cost == Cost(f.rev, op)
    ensures Outcome(st, StepCall(h, f, st, op, cost), !(op == 0xf1 && f.msg.isStatic && st.stack[2] > 0),
                    CallFee(h, f, st, op) + (if f.rev < 2 then st.stack[0] else 0), CallReach(op, st.stack))
  {
    var a := ArgsOf(op, st.stack);
    var asked: nat, reach := if f.rev < 2 then st.stack[0] else 0, CallReach(op, st.stack);
    CallNeed(op, st.stack);
    CallFeeTaken(h, f, st, op);
    var fee := CallFee(h, f, st, op);
    if reach > INT63_MAX {
      TooFar(st, fee + asked, reach);
    } else if !(op == CALL && f.msg.isStatic && a.value != 0) {
      CallExpanded(h, f, st, op, a, reach, fee, asked);
    }
  }

  lemma CallExpanded(h: Host, f: Frame, st: State, op: Byte, a: CallArgs, reach: nat, fee: nat, asked: nat)
    requires Bounded(st) && |st.stack| >= CallArity(op) && asked == (if f.rev < 2 then a.gas else 0)
    requires MaxNeed(a) == Some(reach)
    ensures var s := Expand(st, reach, fee, 0);
      && (s.None? ==> !Affordable(st, fee + asked, reach))
      && (s.Some? ==> (a.inSize > 0 ==> a.inOffset + a.inSize <= |s.value.mem|))
      && (s.Some? ==> Outcome(st, SendCall(h, f, s.value.(returnData := []), op, a), true, fee + asked, reach))
  {
    ExpandFree(st, reach, fee);
    ExpandRest(st, reach, fee, asked);
    var s := Expand(st, reach, fee, 0);
    if s.Some? {
      assert s.value.stack == st.stack;
      SendSettled(h, f, st, s.value.(returnData := []), op, a, reach, fee, asked);
    }
  }

  lemma SendSettled(h: Host, f: Frame, st: State, s: State, op: Byte, a: CallArgs, reach: nat, fee: nat, asked: nat)
    requires Bounded(st) && |s.stack| >= CallArity(op) && asked == (if f.rev < 2 then a.gas else 0)
    requires MaxNeed(a) == Some(reach) && Fits(|st.mem|, |s.mem|, reach)
    requires s.gas <= st.gas && (s.gas >= asked <==> Affordable(st, fee + asked, reach))
    ensures a.inSize > 0 ==> a.inOffset + a.inSize <= |s.mem|
    ensures Outcome(st, SendCall(h, f, s, op, a), true, fee + asked, reach)
  {
    SendOutcome(h, f, s, op, a);
  }

  // ---- Every instruction ----

  /** The instructions of a revision. */
  predicate Defined(rev: Revision, op: Byte)
  {
    || op <= 0x0b || 0x10 <= op <= 0x1a || op == 0x20 || 0x30 <= op <= 0x3c || 0x40 <= op <= 0x45 || 0x50 <= op <= 0x5b
    || 0x60 <= op <= 0xa4 || 0xf0 <= op <= 0xf3 || op == 0xff
    || (rev >= 1 && op == 0xf4)
    || (rev >= 4 && (op == 0x3d || op == 0x3e || op == 0xfa || op == 0xfd))
    || (rev >= 5 && (0x1b <= op <= 0x1d || op == 0x3f || op == 0xf5))
    || (rev >= 7 && (op == 0x46 || op == 0x47))
  }

  /** How many words an instruction needs on the stack, and how many it leaves of them. */
  function Takes(op: Byte): (n: nat)
  {
    if IsArithmetic(op) then Operands(op)
    else if op == 0x20 || op == 0x52 || op == 0x53 || op == 0x55 || op == 0x57 || op == 0xf3 || op == 0xfd then 2
    else if op == 0x31 || op == 0x35 || op == 0x3b || op == 0x3f || op == 0x40 || op == 0x54 then 1
    else if op == 0x50 || op == 0x51 || op == 0x56 || op == 0xff then 1
    else if op == 0x37 || op == 0x39 || op == 0x3e || op == 0xf0 then 3
    else if op == 0x3c || op == 0xf5 then 4
    else if 0x80 <= op <= 0x8f then op - 0x7f
    else if 0x90 <= op <= 0x9f then op - 0x8e
    else if 0xa0 <= op <= 0xa4 then op - 0x9e
    else if IsCall(op) then Windows(op) + 4
    else 0
  }

  function Leaves(op: Byte): (n: nat)
  {
    if IsEnvironment(op) || 0x60 <= op <= 0x7f || IsArithmetic(op) || op == 0x20 || op == 0x51 then 1
    else if op == 0x31 || op == 0x35 || op == 0x3b || op == 0x3f || op == 0x40 || op == 0x54 then 1
    else if 0x80 <= op <= 0x8f then op - 0x7e
    else if 0x90 <= op <= 0x9f then op - 0x8e
    else if op == 0xf0 || op == 0xf5 || IsCall(op) then 1
    else 0
  }

  lemma HeightRow(rev: Revision, op: Byte)
    requires Defined(rev, op)
    ensures Available(rev, op) && !KindOf(op).Bad? && Required(rev, op) == Takes(op) && Change(rev, op) == Leaves(op) - Takes(op)
  {
  }

  lemma UndefinedRow(rev: Revision, op: Byte)
    requires !Defined(rev, op)
    ensures !Available(rev, op) || KindOf(op).Bad? || Synthetic(op)
    ensures Required(rev, op) == 0 || Synthetic(op)
  {
  }

  /** The first byte past the memory an instruction touches. */
  function Reach(op: Byte, s: seq<Word>): (n: nat)
    requires |s| >= Takes(op)
  {
    if op == 0x51 || op == 0x52 then s[0] as nat + 32
    else if op == 0x53 then s[0] as nat + 1
    else if op == 0x20 || op == 0xf3 || op == 0xfd || 0xa0 <= op <= 0xa4 then Past(s[0], s[1])
    else if op == 0x37 || op == 0x39 || op == 0x3e then Past(s[0], s[2])
    else if op == 0x3c then Past(s[1], s[3])
    else if op == 0xf0 || op == 0xf5 then Past(s[1], s[2])
    else if IsCall(op) then CallReach(op, s)
    else 0
  }

  /** What an instruction costs beside memory; before Tangerine Whistle a call also what it asks for. */
  function Fee(h: Host, f: Frame, st: State, op: Byte): (g: nat)
    requires |st.stack| >= Takes(op)
  {
    var s := st.stack;
    if HasTier(op) then Tier(op)
    else if AsksState(op) then AskFee(f.rev, op)
    else if op == 0x0a then 10 + (if f.rev >= 3 then 50 else 10) * A.ByteLength(s[1])
    else if op == 0x20 then 30 + 6 * Words32(s[1])
    else if 0xa0 <= op <= 0xa4 then 375 + 375 * (op - 0xa0) + 8 * s[1] as nat
    else if op == 0x37 || op == 0x39 || op == 0x3e then 3 + 3 * Words32(s[2])
    else if op == 0x3c then (if f.rev >= 2 then 700 else 20) + 3 * Words32(s[3])
    else if op == 0x55 then StoreFee(f.rev, h.storageStatus(st.trace, f.msg.destination, s[0], s[1]))
    else if op == 0xff then DestructFee(h, f, st.trace, s[0])
    else if IsCall(op) then CallFee(h, f, st, op) + (if f.rev < 2 then s[0] else 0)
    else if op == 0xf0 || op == 0xf5 then 32000 + (if op == 0xf5 then 6 * Words32(s[2]) else 0)
    else if op == 0x56 then 8 else if op == 0x57 then 10 else 3
  }

  /** What else keeps an instruction from going through: static mode, data not returned, the reserve of
      SSTORE, and a jump to where there is no destination. */
  ghost predicate Allowed(f: Frame, st: State, op: Byte)
    requires |st.stack| >= Takes(op)
  {
    var s := st.stack;
    && (f.msg.isStatic ==> !(0xa0 <= op <= 0xa4) && op != 0x55 && op != 0xf0 && op != 0xf5 && op != 0xff && (op == 0xf1 ==> s[2] == 0))
    && (op == 0x3e ==> s[1] as nat + s[2] <= |st.returnData|)
    && (op == 0x55 && f.rev >= 7 ==> st.gas > 2300)
    && (op == 0x56 || (op == 0x57 && s[1] != 0) ==> s[0] <= 0x7FFF_FFFF_FFFF_FFFF && IsDest(f.code, s[0]))
  }

  /** The handlers that only pay. */
  predicate OnlyPays(op: Byte)
  {
    (HasTier(op) && !(0x51 <= op <= 0x53) && op != 0xf3 && op != 0xfd) || AsksState(op) || op == 0x0a
  }

  lemma SimpleRow(rev: Revision, op: Byte)
    requires Defined(rev, op) && OnlyPays(op)
    ensures !Control(op) && var k := KindOf(op);
      k.Stop? || k.Alu? || k.Env? || k.Query? || k.Pop? || k.Jumpdest? || k.Dup? || k.Swap?
    ensures op != 0x0a ==> Cost(rev, op) == if AsksState(op) then AskFee(rev, op) else Tier(op)
  {
  }

  lemma SimpleIs(h: Host, f: Frame, st: State, op: Byte, cost: nat)
    requires Available(f.rev, op) && !Control(op) && |st.stack| >= Required(f.rev, op)
    requires var k := KindOf(op); k.Stop? || k.Alu? || k.Env? || k.Query? || k.Pop? || k.Jumpdest? || k.Dup? || k.Swap?
    ensures var r := StepPlain(h, f, st, op, cost);
      var fee := if op == 0x0a then 10 + (if f.rev >= 3 then 50 else 10) * A.ByteLength(st.stack[1]) else cost;
      (r.Fault? <==> Charge(st, fee).None?) && (r.Fault? ==> r.error == OutOfGas) && (!r.Fault? ==> r.st.mem == st.mem)
  {
  }

  /** What a handler has to be shown for. */
  ghost predicate Settled(h: Host, f: Frame, st: State, op: Byte, r: StepResult)
    requires Bounded(st) && |st.stack| >= Takes(op)
  {
    Outcome(st, r, Allowed(f, st, op), Fee(h, f, st, op), Reach(op, st.stack))
  }

  lemma SimpleTerms(h: Host, f: Frame, st: State, op: Byte)
    requires OnlyPays(op) && |st.stack| >= Takes(op)
    ensures Allowed(f, st, op) && Reach(op, st.stack) == 0
    ensures op == 0x0a ==> |st.stack| >= 2
    ensures Fee(h, f, st, op) ==
      if op == 0x0a then 10 + (if f.rev >= 3 then 50 else 10) * A.ByteLength(st.stack[1])
      else if AsksState(op) then AskFee(f.rev, op) else Tier(op)
  {
  }

  lemma PaidOutcome(st: State, r: StepResult, fee: nat)
    requires Bounded(st) && (r.Fault? <==> Charge(st, fee).None?) && (r.Fault? ==> r.error == OutOfGas)
    requires !r.Fault? ==> r.st.mem == st.mem
    ensures Outcome(st, r, true, fee, 0)
  {
    ChargeOutcome(st, fee);
  }

  lemma SimpleSettled(h: Host, f: Frame, st: State, op: Byte)
    requires Bounded(st) && Defined(f.rev, op) && OnlyPays(op) && |st.stack| >= Takes(op)
    requires Available(f.rev, op) && !Control(op) && |st.stack| >= Required(f.rev, op)
    ensures Settled(h, f, st, op, StepPlain(h, f, st, op, Cost(f.rev, op)))
  {
    SimpleRow(f.rev, op);
    SimpleTerms(h, f, st, op);
    SimpleIs(h, f, st, op, Cost(f.rev, op));
    PaidOutcome(st, StepPlain(h, f, st, op, Cost(f.rev, op)), Fee(h, f, st, op));
  }

  /** The terms of an instruction, given as values. */
  ghost predicate Terms(h: Host, f: Frame, st: State, op: Byte, ok: bool, fee: nat, reach: nat)
    requires |st.stack| >= Takes(op)
  {
    Allowed(f, st, op) == ok && Fee(h, f, st, op) == fee && Reach(op, st.stack) == reach
  }

  lemma Settles(h: Host, f: Frame, st: State, op: Byte, r: StepResult, ok: bool, fee: nat, reach: nat)
    requires Bounded(st) && |st.stack| >= Takes(op) && Terms(h, f, st, op, ok, fee, reach) && Outcome(st, r, ok, fee, reach)
    ensures Settled(h, f, st, op, r)
  {
  }

  lemma MemoryTerms(h: Host, f: Frame, st: State, op: Byte)
    requires (0x51 <= op <= 0x53 || op == 0x20 || op == 0xf3 || op == 0xfd) && |st.stack| >= Takes(op)
    ensures op == 0x51 ==> |st.stack| >= 1 && Terms(h, f, st, op, true, 3, st.stack[0] as nat + 32)
    ensures op != 0x51 ==> |st.stack| >= 2
    ensures op == 0x52 || op == 0x53 ==> Terms(h, f, st, op, true, 3, st.stack[0] as nat + if op == 0x52 then 32 else 1)
    ensures op == 0x20 ==> Terms(h, f, st, op, true, 30 + 6 * Words32(st.stack[1]), Past(st.stack[0], st.stack[1]))
    ensures op == 0xf3 || op == 0xfd ==> Terms(h, f, st, op, true, 0, Past(st.stack[0], st.stack[1]))
  {
  }

  lemma MemoryRow(rev: Revision, op: Byte)
    requires (0x51 <= op <= 0x53 || op == 0x20 || op == 0xf3 || op == 0xfd) && Available(rev, op)
    ensures KindOf(op) == (if op == 0x51 then Mload else if op == 0x20 then Sha3 else if op == 0x52 || op == 0x53 then Mstore else Return)
    ensures op != 0x20 ==> Cost(rev, op) == if op == 0xf3 || op == 0xfd then 0 else 3
  {
  }

  lemma MloadIs(h: Host, f: Frame, st: State, cost: nat)
    requires Available(f.rev, 0x51) && !Control(0x51) && |st.stack| >= 1 && |st.stack| >= Required(f.rev, 0x51)
    ensures StepPlain(h, f, st, 0x51, cost) == StepMload(st, cost)
  {
  }

  /** The handlers that reach into memory and change nothing outside. */
  lemma MemorySettled(h: Host, f: Frame, st: State, op: Byte)
    requires Bounded(st) && Available(f.rev, op) && (0x51 <= op <= 0x53 || op == 0x20 || op == 0xf3 || op == 0xfd)
    requires !Control(op) && |st.stack| >= Takes(op) && |st.stack| >= Required(f.rev, op)
    ensures Settled(h, f, st, op, StepPlain(h, f, st, op, Cost(f.rev, op)))
  {
    MemoryTerms(h, f, st, op);
    MemoryRow(f.rev, op);
    var r := StepPlain(h, f, st, op, Cost(f.rev, op));
    if op == 0x51 {
      MloadIs(h, f, st, 3);
      MloadOutcome(st, 3);
      Settles(h, f, st, op, r, true, 3, st.stack[0] as nat + 32);
    } else {
      PlainIs(h, f, st, op, Cost(f.rev, op));
      WindowSettled(h, f, st, op, r);
    }
  }

  lemma WindowSettled(h: Host, f: Frame, st: State, op: Byte, r: StepResult)
    requires Bounded(st) && (op == 0x52 || op == 0x53 || op == 0x20 || op == 0xf3 || op == 0xfd) && |st.stack| >= 2 && |st.stack| >= Takes(op)
    requires (op == 0x52 || op == 0x53) ==> KindOf(op).Mstore? && r == StepMstore(st, op, 3)
    requires op == 0x20 ==> r == StepSha3(h, st)
    requires op == 0xf3 || op == 0xfd ==> r == StepReturn(st, op, 0)
    ensures Settled(h, f, st, op, r)
  {
    MemoryTerms(h, f, st, op);
    if op == 0x20 {
      Sha3Outcome(h, st);
      Settles(h, f, st, op, r, true, 30 + 6 * Words32(st.stack[1]), Past(st.stack[0], st.stack[1]));
    } else if op == 0xf3 || op == 0xfd {
      ReturnOutcome(st, op, 0);
      Settles(h, f, st, op, r, true, 0, Past(st.stack[0], st.stack[1]));
    } else {
      MstoreOutcome(st, op, 3);
      Settles(h, f, st, op, r, true, 3, st.stack[0] as nat + if op == 0x52 then 32 else 1);
    }
  }

  lemma LogTerms(h: Host, f: Frame, st: State, op: Byte)
    requires 0xa0 <= op <= 0xa4 && |st.stack| >= Takes(op)
    ensures Terms(h, f, st, op, !f.msg.isStatic, 375 + 375 * (op - 0xa0) as nat + 8 * st.stack[1] as nat, Past(st.stack[0], st.stack[1]))
  {
  }

  lemma LogSettled(h: Host, f: Frame, st: State, op: Byte)
    requires Bounded(st) && Available(f.rev, op) && 0xa0 <= op <= 0xa4
    requires !Control(op) && |st.stack| >= Takes(op) && |st.stack| >= Required(f.rev, op)
    ensures Settled(h, f, st, op, StepPlain(h, f, st, op, Cost(f.rev, op)))
  {
    LogRow(f.rev, op, op - 0xa0);
    PlainIs(h, f, st, op, Cost(f.rev, op));
    LogTerms(h, f, st, op);
    LogOutcome(f, st, op - 0xa0);
    Settles(h, f, st, op, StepLog(f, st, op - 0xa0), !f.msg.isStatic,
            375 + 375 * (op - 0xa0) as nat + 8 * st.stack[1] as nat, Past(st.stack[0], st.stack[1]));
  }

  lemma CopyTerms(h: Host, f: Frame, st: State, op: Byte, a: CopyArgs)
    requires (op == 0x37 || op == 0x39 || op == 0x3c || op == 0x3e) && KindOf(op).Copy? && |st.stack| >= (if op == 0x3c then 4 else 3)
    requires |st.stack| >= Takes(op) && a == CopyOf(h, f, st, op)
    ensures var base := if op != 0x3c then 3 else if f.rev >= 2 then 700 else 20;
      Terms(h, f, st, op, op == 0x3e ==> a.index + a.size <= |st.returnData|, base + 3 * Words32(a.size), Past(a.offset, a.size))
  {
  }

  lemma CopyOutcome(h: Host, f: Frame, st: State, op: Byte, cost: nat, a: CopyArgs)
    requires Bounded(st) && KindOf(op).Copy? && |st.stack| >= (if op == 0x3c then 4 else 3) && a == CopyOf(h, f, st, op)
    ensures Outcome(st, StepCopy(h, f, st, op, cost), op == 0x3e ==> a.index + a.size <= |st.returnData|,
                    cost + 3 * Words32(a.size), Past(a.offset, a.size))
  {
    CopyInOutcome(st, a, cost);
  }

  lemma CopySettled(h: Host, f: Frame, st: State, op: Byte)
    requires Bounded(st) && Available(f.rev, op) && (op == 0x37 || op == 0x39 || op == 0x3c || op == 0x3e)
    requires !Control(op) && |st.stack| >= Takes(op) && |st.stack| >= Required(f.rev, op)
    ensures Settled(h, f, st, op, StepPlain(h, f, st, op, Cost(f.rev, op)))
  {
    PlainIs(h, f, st, op, Cost(f.rev, op));
    CopyPrice(f.rev, op);
    var a := CopyOf(h, f, st, op);
    CopyTerms(h, f, st, op, a);
    CopyOutcome(h, f, st, op, Cost(f.rev, op), a);
    Settles(h, f, st, op, StepCopy(h, f, st, op, Cost(f.rev, op)), op == 0x3e ==> a.index + a.size <= |st.returnData|,
            Cost(f.rev, op) + 3 * Words32(a.size), Past(a.offset, a.size));
  }

  lemma SstoreOutcome(h: Host, f: Frame, st: State, fee: nat)
    requires Bounded(st) && |st.stack| >= 2
    requires fee == StoreFee(f.rev, h.storageStatus(st.trace, f.msg.destination, st.stack[0], st.stack[1]))
    ensures Outcome(st, StepSstore(h, f, st), !f.msg.isStatic && (f.rev >= 7 ==> st.gas > 2300), fee, 0)
  {
    ChargeOutcome(st, fee);
  }

  lemma DestructOutcome(h: Host, f: Frame, st: State, fee: nat)
    requires Bounded(st) && |st.stack| >= 1 && fee == DestructFee(h, f, st.trace, st.stack[0])
    ensures Outcome(st, StepSelfDestruct(h, f, st, if f.rev < 2 then 0 else 5000), !f.msg.isStatic, fee, 0)
  {
    ChargeOutcome(st, fee);
  }

  lemma ChangeTerms(h: Host, f: Frame, st: State, op: Byte)
    requires (op == 0x55 || op == 0xff) && |st.stack| >= Takes(op)
    ensures |st.stack| >= (if op == 0x55 then 2 else 1)
    ensures Terms(h, f, st, op, !f.msg.isStatic && (op == 0x55 && f.rev >= 7 ==> st.gas > 2300), Fee(h, f, st, op), 0)
    ensures op == 0x55 ==> Fee(h, f, st, op) == StoreFee(f.rev, h.storageStatus(st.trace, f.msg.destination, st.stack[0], st.stack[1]))
    ensures op == 0xff ==> Fee(h, f, st, op) == DestructFee(h, f, st.trace, st.stack[0])
  {
  }

  lemma ChangeSettled(h: Host, f: Frame, st: State, op: Byte)
    requires Bounded(st) && Available(f.rev, op) && (op == 0x55 || op == 0xff)
    requires !Control(op) && |st.stack| >= Takes(op) && |st.stack| >= Required(f.rev, op)
    ensures Settled(h, f, st, op, StepPlain(h, f, st, op, Cost(f.rev, op)))
  {
    PlainIs(h, f, st, op, Cost(f.rev, op));
    ChangeTerms(h, f, st, op);
    DestructRow(f.rev);
    var r := StepPlain(h, f, st, op, Cost(f.rev, op));
    if op == 0x55 { SstoreOutcome(h, f, st, Fee(h, f, st, op)); } else { DestructOutcome(h, f, st, Fee(h, f, st, op)); }
    Settles(h, f, st, op, r, !f.msg.isStatic && (op == 0x55 && f.rev >= 7 ==> st.gas > 2300), Fee(h, f, st, op), 0);
  }

  lemma SendTerms(h: Host, f: Frame, st: State, op: Byte)
    requires (IsCall(op) || op == 0xf0 || op == 0xf5) && |st.stack| >= Takes(op)
    ensures |st.stack| >= (if IsCall(op) then Windows(op) + 4 else if op == 0xf5 then 4 else 3)
    ensures IsCall(op) ==>
      Terms(h, f, st, op, !(op == 0xf1 && f.msg.isStatic && st.stack[2] > 0),
            CallFee(h, f, st, op) + (if f.rev < 2 then st.stack[0] else 0), CallReach(op, st.stack))
    ensures !IsCall(op) ==>
      Terms(h, f, st, op, !f.msg.isStatic, 32000 + (if op == 0xf5 then 6 * Words32(st.stack[2]) else 0), Past(st.stack[1], st.stack[2]))
  {
  }

  lemma CallSettled(h: Host, f: Frame, st: State, op: Byte, cost: nat)
    requires Bounded(st) && IsCall(op) && KindOf(op).MessageCall? && Available(f.rev, op) && cost == Cost(f.rev, op)
    requires |st.stack| >= Takes(op) && |st.stack| >= CallArity(op)
    ensures Settled(h, f, st, op, StepCall(h, f, st, op, cost))
  {
    SendTerms(h, f, st, op);
    CallOutcome(h, f, st, op, cost);
    Settles(h, f, st, op, StepCall(h, f, st, op, cost), !(op == 0xf1 && f.msg.isStatic && st.stack[2] > 0),
            CallFee(h, f, st, op) + (if f.rev < 2 then st.stack[0] else 0), CallReach(op, st.stack));
  }

  lemma CreateSettled(h: Host, f: Frame, st: State, op: Byte)
    requires Bounded(st) && (op == 0xf0 || op == 0xf5) && KindOf(op).CreateAccount?
    requires |st.stack| >= Takes(op) && |st.stack| >= CreateArity(op)
    ensures Settled(h, f, st, op, StepCreate(h, f, st, op))
  {
    SendTerms(h, f, st, op);
    CreateOutcome(h, f, st, op);
    Settles(h, f, st, op, StepCreate(h, f, st, op), !f.msg.isStatic,
            32000 + (if op == 0xf5 then 6 * Words32(st.stack[2]) else 0), Past(st.stack[1], st.stack[2]));
  }

  lemma MessageSettled(h: Host, f: Frame, st: State, op: Byte)
    requires Bounded(st) && Available(f.rev, op) && (IsCall(op) || op == 0xf0 || op == 0xf5)
    requires !Control(op) && |st.stack| >= Takes(op) && |st.stack| >= Required(f.rev, op)
    ensures Settled(h, f, st, op, StepPlain(h, f, st, op, Cost(f.rev, op)))
  {
    PlainIs(h, f, st, op, Cost(f.rev, op));
    if IsCall(op) {
      CallRow(f.rev, op);
      CallSettled(h, f, st, op, Cost(f.rev, op));
    } else {
      CreateSettled(h, f, st, op);
    }
  }

  // ---- Jumps and pushes ----

  lemma JumpOutcome(code: Bytes, q: Program, st: State, op: Byte)
    requires Bounded(st) && q.dests == DestsFrom(code, 0) && (op == 0x56 || op == 0x57) && |st.stack| >= (if op == 0x56 then 1 else 2)
    ensures var ok := op == 0x56 || st.stack[1] != 0 ==> st.stack[0] <= 0x7FFF_FFFF_FFFF_FFFF && IsDest(code, st.stack[0]);
      Outcome(st, StepJump(q, st, op, if op == 0x56 then 8 else 10), ok, if op == 0x56 then 8 else 10, 0)
  {
    DestIsVerified(code, st.stack[0]);
    ChargeOutcome(st, if op == 0x56 then 8 else 10);
  }

  lemma JumpTerms(h: Host, f: Frame, st: State, op: Byte)
    requires (op == 0x56 || op == 0x57) && |st.stack| >= Takes(op)
    ensures |st.stack| >= (if op == 0x56 then 1 else 2)
    ensures var ok := op == 0x56 || st.stack[1] != 0 ==> st.stack[0] <= 0x7FFF_FFFF_FFFF_FFFF && IsDest(f.code, st.stack[0]);
      Terms(h, f, st, op, ok, if op == 0x56 then 8 else 10, 0)
  {
  }

  lemma PushTerms(h: Host, f: Frame, st: State, op: Byte)
    requires 0x60 <= op <= 0x7f && |st.stack| >= Takes(op)
    ensures Terms(h, f, st, op, true, 3, 0)
  {
  }

  lemma ControlSettled(h: Host, f: Frame, q: Program, st: State, op: Byte)
    requires Bounded(st) && Fetchable(q, st.pc) && q.code[st.pc] == op && q.dests == DestsFrom(f.code, 0)
    requires (0x56 <= op <= 0x57 || 0x60 <= op <= 0x7f) && Takes(op) <= |st.stack| && |st.stack| - Takes(op) + Leaves(op) <= 1024
    ensures Settled(h, f, st, op, Step(h, f, q, st))
  {
    var r := Step(h, f, q, st);
    if op == 0x56 || op == 0x57 {
      StepAtJump(h, f, q, st, op);
      JumpTerms(h, f, st, op);
      JumpOutcome(f.code, q, st, op);
      Settles(h, f, st, op, r, Allowed(f, st, op), if op == 0x56 then 8 else 10, 0);
    } else {
      PushRow(op, op - 0x5f);
      StepAtPush(h, f, q, st, op);
      PushTerms(h, f, st, op);
      PaidOutcome(st, r, 3);
      Settles(h, f, st, op, r, true, 3, 0);
    }
  }

  // ---- Every instruction of every code ----

  /** The revision has the instruction, the stack holds its words and has room for its results. */
  predicate Prepares(f: Frame, st: State, op: Byte)
  {
    Defined(f.rev, op) && Takes(op) <= |st.stack| && |st.stack| - Takes(op) + Leaves(op) <= 1024
  }

  /** An instruction goes through. */
  ghost predicate GoesThrough(h: Host, f: Frame, st: State, op: Byte)
    requires Bounded(st)
  {
    Prepares(f, st, op) && Allowed(f, st, op) && Affordable(st, Fee(h, f, st, op), Reach(op, st.stack))
  }

  lemma PlainSettled(h: Host, f: Frame, st: State, op: Byte)
    requires Bounded(st) && Defined(f.rev, op) && Takes(op) <= |st.stack| && Available(f.rev, op) && !Control(op) && |st.stack| >= Required(f.rev, op)
    ensures Settled(h, f, st, op, StepPlain(h, f, st, op, Cost(f.rev, op)))
  {
    if OnlyPays(op) {
      SimpleSettled(h, f, st, op);
    } else if IsCall(op) || op == 0xf0 || op == 0xf5 {
      MessageSettled(h, f, st, op);
    } else if 0xa0 <= op <= 0xa4 {
      LogSettled(h, f, st, op);
    } else if op == 0x55 || op == 0xff {
      ChangeSettled(h, f, st, op);
    } else if op == 0x37 || op == 0x39 || op == 0x3c || op == 0x3e {
      CopySettled(h, f, st, op);
    } else {
      MemorySettled(h, f, st, op);
    }
  }

  lemma Dispatched(h: Host, f: Frame, q: Program, st: State, op: Byte)
    requires Fetchable(q, st.pc) && q.code[st.pc] == op && Available(f.rev, op) && !Control(op)
    ensures Step(h, f, q, st) ==
      if |st.stack| < Required(f.rev, op) then Fault(StackUnderflow, st.trace)
      else if |st.stack| + Change(f.rev, op) > 1024 then Fault(StackOverflow, st.trace)
      else StepPlain(h, f, st, op, Cost(f.rev, op))
  {
  }

  lemma ControlRow(op: Byte)
    ensures Control(op) <==> 0x56 <= op <= 0x57 || 0x60 <= op <= 0x7f || Synthetic(op)
  {
  }

  lemma DefinedStep(h: Host, f: Frame, q: Program, st: State, op: Byte)
    requires Bounded(st) && Fetchable(q, st.pc) && q.code[st.pc] == op && q.dests == DestsFrom(f.code, 0) && Defined(f.rev, op)
    ensures var r := Step(h, f, q, st);
      if Takes(op) <= |st.stack| && |st.stack| - Takes(op) + Leaves(op) <= 1024 then Settled(h, f, st, op, r)
      else r == Fault(if |st.stack| < Takes(op) then StackUnderflow else StackOverflow, st.trace)
  {
    HeightRow(f.rev, op);
    ControlRow(op);
    if !Control(op) {
      Dispatched(h, f, q, st, op);
      if Takes(op) <= |st.stack| { PlainSettled(h, f, st, op); }
    } else if Takes(op) <= |st.stack| && |st.stack| - Takes(op) + Leaves(op) <= 1024 {
      ControlSettled(h, f, q, st, op);
    }
  }

  /** At every tracked state of every code, optimised or not: an instruction goes through if and only
      if the revision has it, the stack holds its words and has room, it is allowed, and its fee and the
      memory it reaches can be paid; none of the overflow guards refuses anything else.  Memory
      then has just the words it reaches. */
  lemma SucceedsExactly(h: Host, f: Frame, p: Program, st: State, op: Byte)
    requires Loaded(f.code, p) && OnTrack(f.code, p, st) && st.pc < |f.code| && op == f.code[st.pc] && Bounded(st)
    ensures Fetchable(p, st.pc)
    ensures var r := Step(h, f, p, st);
      && (r.Fault? <==> !GoesThrough(h, f, st, op))
      && (Defined(f.rev, op) && |st.stack| < Takes(op) ==> r.error == StackUnderflow)
      && (Defined(f.rev, op) && |st.stack| >= Takes(op) && |st.stack| - Takes(op) + Leaves(op) > 1024 ==> r.error == StackOverflow)
      && (r.Fault? && Prepares(f, st, op) && Allowed(f, st, op) ==> r.error == OutOfGas)
      && (!r.Fault? ==> Fits(|st.mem|, |r.st.mem|, Reach(op, st.stack)))
  {
    StepAgrees(h, f, p, st);
    var q := Load(f.code, false);
    if Defined(f.rev, op) {
      DefinedStep(h, f, q, st, op);
    } else {
      UndefinedFaults(h, f, q, st, op);
    }
  }

  lemma PreparedByte(code: Bytes, pc: nat)
    requires pc < |code| && Boundary(code, pc)
    ensures Prepared(code)[pc] == if Synthetic(code[pc]) then UNDEFINED else code[pc]
  {
  }

  lemma UndefinedFaults(h: Host, f: Frame, q: Program, st: State, op: Byte)
    requires q == Load(f.code, false) && Fetchable(q, st.pc) && Boundary(f.code, st.pc)
    requires st.pc < |f.code| && op == f.code[st.pc] && !Defined(f.rev, op)
    ensures Step(h, f, q, st).Fault?
  {
    PreparedByte(f.code, st.pc);
    UndefinedRow(f.rev, q.code[st.pc]);
  }

  /** Behind the code an execution ends well and for free. */
  lemma PaddingStops(h: Host, f: Frame, p: Program, st: State)
    requires Loaded(f.code, p) && OnTrack(f.code, p, st) && st.pc >= |f.code| && |st.stack| <= 1024
    ensures Fetchable(p, st.pc) && Step(h, f, p, st) == Halt(false, [], st)
  {
  }

  /** Every state an execution comes to is bounded. */
  lemma ReadyBounded(f: Frame, pooled: bool, st: State)
    requires Ready(f, pooled, st)
    ensures Bounded(st)
  {
  }
}
