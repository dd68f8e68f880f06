/** The interpreter as the sources have it: an object whose fields the handlers update one by one,
    with a stack that grows downwards in a fixed array behind two pointers, and with gas and sizes
    in 64-bit registers that wrap around.  Every method is proved equal to the step functions of
    `Machine`, in which nothing wraps: so nothing ever does here either.
 */
module VirtualMachine {
  import opened Words
  import opened Instructions
  import opened Hosts
  import opened Machine
  import opened Code
  import opened Interpreter
  import opened Optimizer
  import opened Execution
  import opened Loops
  import A = Alu

  /** How a handler leaves the switch: on to the next fetch, out of the loop, or by an exception. */
  datatype Signal = Continue | Stopped(reverted: bool) | Raised(error: Error)

  /** The memory can grow to `size` bytes, with `fixed` charged besides. */
  predicate Affordable(current: nat, size: nat, fixed: nat, gas: nat)
  {
    (size > current ==> GasForMem(size) <= INT63_MAX) && fixed + GrowthGas(current, size) <= gas
  }

  lemma GrowthBounded(current: nat, size: nat)
    requires GasForMem(size) <= INT63_MAX
    ensures GrowthGas(current, size) <= INT63_MAX
  {
  }

  lemma RoundingFits(n: nat)
    requires n <= INT63_MAX + 32
    ensures Wrap64(Wrap64(n + 31) / 32 * 32) == RoundUp32(n) <= TWO_63 + 62
  {
  }

  /** The sums of `updateGas` stay below 2^64. */
  lemma NothingWraps(run: nat, growth: nat, copied: nat)
    requires run + WordGas(copied, 3) <= INT63_MAX && growth <= INT63_MAX && copied <= INT63_MAX
    ensures Wrap64(run) == run && Wrap64(run + growth) == run + growth
    ensures Wrap64(run + growth + 3 * (Wrap64(copied + 31) / 32)) == run + WordGas(copied, 3) + growth
  {
  }

  const TABLE_MAX: nat := 32000

  /** Offsets and sizes of a paid access survive their casts to 64 bits; those of an empty access
      need not, and nothing is read there. */
  lemma SliceCast(mem: Bytes, offset: Word, size: Word)
    requires MemNeed(offset, size).Some? && MemNeed(offset, size).value <= |mem|
    ensures Wrap64(size) == size && (size > 0 ==> Wrap64(offset) == offset)
    ensures Slice(mem, Wrap64(offset), Wrap64(size)) == Slice(mem, offset, size)
  {
  }

  lemma PaddedParts(data: Bytes, index: nat, n: nat, copied: nat)
    requires copied <= n
    requires copied == if index + n > |data| then (if |data| < index then 0 else |data| - index) else n
    ensures Padded(data, index, n) == Padded(data, index, copied) + Zeros(n - copied)
    ensures copied > 0 ==> Padded(data, index, copied) == data[index..index + copied]
    ensures copied == n ==> Zeros(n - copied) == []
  {
  }

  lemma SpliceParts(mem: Bytes, offset: nat, a: Bytes, b: Bytes)
    requires offset + |a| + |b| <= |mem|
    ensures Splice(Splice(mem, offset, a), offset + |a|, b) == Splice(mem, offset, a + b)
    ensures a == [] ==> Splice(mem, offset, a) == mem
    ensures b == [] ==> Splice(mem, offset, a + b) == Splice(mem, offset, a)
  {
    if b == [] { assert a + b == a; }
  }

  /** The client's answer to a message arrives before the handler is done. */
  ghost predicate Deliverable(r: StepResult)
  {
    r.CallOut? ==>
      r.msg.gas <= INT63_MAX
      && (r.slot.CallSlot? && r.slot.size > 0 ==> r.slot.offset + r.slot.size <= |r.st.mem|)
  }

  /** `m_host->call`, which runs the callee before it returns. */
  type Client = (Trace, Message) -> (Hosts.Result, Trace)

  ghost predicate Fair(call: Client)
  {
    forall t: Trace, m: Message :: call(t, m).0.gasLeft <= m.gas
  }

  ghost function Answered(call: Client, r: StepResult): (r': StepResult)
    requires Fair(call) && Deliverable(r)
  {
    if r.CallOut? then
      var (res, trace) := call(r.st.trace, r.msg);
      Next(Resume(r.st, r.msg, r.slot, res, trace))
    else r
  }

  /** CREATE2 tests its hashing charge before the size: only a size within 63 bits gets on. */
  lemma CreateBaseBounded(op: Byte, offset: Word, size: Word)
    requires CreateBase(op, size).Some? && MemNeed(offset, size).Some?
    ensures CreateBase(op, size).value <= INT63_MAX
  {
  }

  /** How many operands a handler takes off the stack, and how many results it writes. */
  function Drops(op: Byte): (n: nat)
  {
    match KindOf(op)
    case Alu(n) => n
    case Query => 1
    case Copy => if op == EXTCODECOPY then 4 else 3
    case Pop => 1
    case Mload => 1
    case Mstore => 2
    case Sha3 => 2
    case Sstore => 2
    case Jump => 1
    case DirectJump => 1
    case Jumpi => 2
    case DirectJumpi => 2
    case Log(n) => n + 2
    case CreateAccount => CreateArity(op)
    case MessageCall => CallArity(op)
    case Return => 2
    case SelfDestruct => 1
    case _ => 0
  }

  function Pushes(op: Byte): (n: nat)
  {
    var k := KindOf(op);
    if k.Alu? || k.Env? || k.Query? || k.Mload? || k.Sha3? || k.Push? || k.PooledPush? || k.Dup? || k.CreateAccount? || k.MessageCall?
    then 1 else 0
  }

  /** The metrics table has the heights the handlers need. */
  lemma HeightsSuffice(rev: Revision, op: Byte)
    requires Available(rev, op)
    ensures Change(rev, op) == Pushes(op) - Drops(op)
    ensures Drops(op) <= Required(rev, op) <= 17
    ensures Cost(rev, op) <= TABLE_MAX
  {
  }

  class VM {
    const h: Host
    const f: Frame
    const call: Client
    const pooled: bool
    const stack: array<Word>
    const code: Bytes
    const jumpDests: seq<nat>
    const pool: seq<Word>

    var mem: Bytes
    var returnData: Bytes
    var output: Bytes
    var trace: Trace

    var op: Byte
    var pc: nat
    var sp: int
    var spp: int
    var ioGas: nat
    var runGas: nat
    var newMemSize: nat
    var copyMemSize: nat

    // The account of gas paid, by cause, and the part of `runGas` that pays for memory.
    ghost var memoryGas: nat
    ghost var fixedGas: nat
    ghost var callGas: nat
    ghost var stipends: nat
    ghost var runMemory: nat

    ghost function Image(): (p: Program)
    {
      Program(code, jumpDests, pool, pooled)
    }

    /** Registers other than the stack agree with an abstract state. */
    ghost predicate Registers(st: State)
      reads this
    {
      && pc == st.pc && mem == st.mem && ioGas == st.gas && returnData == st.returnData && trace == st.trace
      && memoryGas == st.memoryGas && fixedGas == st.fixedGas && callGas == st.callGas && stipends == st.stipends
    }

    /** The operands are at `sp`, and `spp` leaves room for `push` results in place of `drop` of them. */
    ghost predicate Operands(st: State, drop: nat, push: nat)
      reads this, stack
    {
      && stack.Length == STACK_LIMIT
      && 0 <= sp <= STACK_LIMIT && stack[sp..] == st.stack
      && drop <= |st.stack| && 0 <= spp == sp + drop - push
    }

    /** What `fetchInstruction` hands to a handler. */
    ghost predicate Fetched(st: State, o: Byte, drop: nat, push: nat)
      reads this, stack
    {
      op == o && Primed(st, Cost(f.rev, o), drop, push)
    }

    /** The same, of the opcode only its price. */
    ghost predicate Primed(st: State, cost: nat, drop: nat, push: nat)
      reads this, stack
    {
      && Operands(st, drop, push) && Registers(st)
      && runGas == cost <= TABLE_MAX && copyMemSize == 0 && runMemory == 0
      && st.gas <= INT63_MAX && GasForMem(|st.mem|) <= INT63_MAX
    }

    /** The object has done what the step function says. */
    ghost predicate Agrees(sig: Signal, r: StepResult)
      reads this, stack
    {
      match r
      case Next(s) =>
        sig == Continue && stack.Length == STACK_LIMIT && 0 <= spp <= STACK_LIMIT && Registers(s) && stack[spp..] == s.stack
      case Halt(reverted, out, s) =>
        sig == Stopped(reverted) && output == out && ioGas == s.gas && trace == s.trace
      case Fault(e, t) => sig == Raised(e) && trace == t
      case CallOut(_, _, _) => false
    }

    // ---- Metering ----

    method UpdateIOGas() returns (ok: bool)
      modifies this`ioGas
      ensures ok == (old(ioGas) >= runGas)
      ensures ioGas == if ok then old(ioGas) - runGas else old(ioGas)
    {
      if ioGas < runGas { return false; }
      ioGas := ioGas - runGas;
      return true;
    }

    /** `updateGas`: all sums are 64-bit, and none of them wraps. */
    method UpdateGas() returns (ok: bool)
      requires newMemSize <= TWO_63 + 62 && runGas + WordGas(copyMemSize, 3) <= INT63_MAX && copyMemSize <= INT63_MAX
      requires GasForMem(|mem|) <= INT63_MAX && runMemory == 0
      modifies this`runGas, this`runMemory
      ensures ok == Affordable(|mem|, newMemSize, old(runGas) + WordGas(copyMemSize, 3), ioGas)
      ensures ok ==> runMemory == GrowthGas(|mem|, newMemSize)
      ensures ok ==> runGas == old(runGas) + WordGas(copyMemSize, 3) + runMemory
    {
      ok := AddGrowth();
      if !ok { return false; }
      NothingWraps(old(runGas), runMemory, copyMemSize);
      runGas := Wrap64(runGas + 3 * (Wrap64(copyMemSize + 31) / 32));
      return runGas <= ioGas;
    }

    /** The first addend of `updateGas`. */
    method AddGrowth() returns (ok: bool)
      requires runGas <= INT63_MAX && runMemory == 0
      modifies this`runGas, this`runMemory
      ensures ok == (newMemSize > |mem| ==> GasForMem(newMemSize) <= INT63_MAX)
      ensures ok ==> runMemory == GrowthGas(|mem|, newMemSize) <= INT63_MAX && runGas == old(runGas) + runMemory
    {
      if newMemSize > |mem| {
        if GasForMem(newMemSize) > INT63_MAX { return false; }
        runMemory := GrowthGas(|mem|, newMemSize);
        GrowthBounded(|mem|, newMemSize);
        runGas := Wrap64(runGas + GrowthGas(|mem|, newMemSize));
      }
      return true;
    }

    method UpdateMem(newMem: nat, ghost st: State) returns (ok: bool)
      requires mem == st.mem && ioGas == st.gas && runMemory == 0
      requires newMem <= INT63_MAX + 32 && runGas + WordGas(copyMemSize, 3) <= INT63_MAX && copyMemSize <= INT63_MAX
      requires GasForMem(|mem|) <= INT63_MAX
      modifies this`newMemSize, this`runGas, this`mem, this`runMemory
      ensures ok == Expand(st, newMem, old(runGas), copyMemSize).Some?
      ensures ok ==>
        var s := Expand(st, newMem, old(runGas), copyMemSize).value;
        && mem == s.mem && runGas == st.gas - s.gas && runMemory == s.memoryGas - st.memoryGas
        && runMemory <= runGas
    {
      RoundingFits(newMem);
      newMemSize := Wrap64(Wrap64(newMem + 31) / 32 * 32);
      ok := UpdateGas();
      if ok && newMemSize > |mem| {
        mem := mem + Zeros(newMemSize - |mem|);
      }
    }

    /** `updateMem(need); updateIOGas();`, the two calls every memory instruction makes. */
    method PayMem(newMem: nat, ghost st: State) returns (ok: bool)
      requires Registers(st) && runMemory == 0
      requires newMem <= INT63_MAX + 32 && runGas + WordGas(copyMemSize, 3) <= INT63_MAX && copyMemSize <= INT63_MAX
      requires GasForMem(|mem|) <= INT63_MAX
      modifies this`newMemSize, this`runGas, this`mem, this`runMemory, this`ioGas, this`memoryGas, this`fixedGas
      ensures ok == Expand(st, newMem, old(runGas), copyMemSize).Some?
      ensures ok ==> Registers(Expand(st, newMem, old(runGas), copyMemSize).value) && newMem <= |mem|
    {
      ok := UpdateMem(newMem, st);
      if ok {
        var paid := UpdateIOGas();
        memoryGas := memoryGas + runMemory;
        fixedGas := fixedGas + (runGas - runMemory);
      }
    }

    /** `updateIOGas();` where no memory is involved. */
    method Pay(ghost st: State) returns (ok: bool)
      requires Registers(st)
      modifies this`ioGas, this`fixedGas
      ensures ok == Charge(st, runGas).Some?
      ensures Registers(if ok then Charge(st, runGas).value else st)
    {
      ok := UpdateIOGas();
      if ok { fixedGas := fixedGas + runGas; }
    }

    /** `adjustStack`. */
    method AdjustStack(required: nat, change: int) returns (e: Option<Error>)
      requires stack.Length == STACK_LIMIT && 0 <= spp <= STACK_LIMIT
      modifies this`sp, this`spp
      ensures sp == old(spp)
      ensures e == if STACK_LIMIT - old(spp) < required then Some(StackUnderflow)
                   else if STACK_LIMIT - old(spp) + change > STACK_LIMIT then Some(StackOverflow)
                   else None
      ensures e.None? ==> spp == old(spp) - change
    {
      sp := spp;
      if STACK_LIMIT < sp + required { return Some(StackUnderflow); }
      spp := spp - change;
      if spp < 0 { return Some(StackOverflow); }
      return None;
    }

    // ---- Operand-only instructions ----

    /** `m_SPP[0] = v; ++m_PC`: `drop` operands are replaced by one result. */
    method Result(v: Word, ghost st: State, ghost drop: nat)
      requires Operands(st, drop, 1)
      modifies stack, this`pc
      ensures stack[spp..] == [v] + st.stack[drop..] && pc == old(pc) + 1
    {
      stack[spp] := v;
      pc := pc + 1;
    }

    /** Without a result the operands are dropped by the pointers alone. */
    ghost method Dropped(st: State, drop: nat)
      requires Operands(st, drop, 0)
      ensures 0 <= spp <= STACK_LIMIT && stack[spp..] == st.stack[drop..]
    {
    }

    method CaseAlu(o: Byte, ghost st: State) returns (sig: Signal)
      requires KindOf(o).Alu? && Fetched(st, o, KindOf(o).arity, 1)
      modifies this, stack
      ensures Agrees(sig, StepAlu(f, st, o, Cost(f.rev, o)))
    {
      var operands := stack[sp..];
      if o == EXP { ExpGas(operands[1]); }
      var ok := Pay(st);
      if !ok { return Raised(OutOfGas); }
      var v := AluOf(o, operands);
      Result(v, st, KindOf(o).arity);
      if o == 0x05 { sp := sp - 1; }
      return Continue;
    }

    /** The price of EXP, by the first bit set of the exponent. */
    method ExpGas(exponent: Word)
      modifies this`runGas
      ensures runGas == 10 + (if f.rev >= SPURIOUS_DRAGON then 50 else 10) * A.ByteLength(exponent)
    {
      var byteCost := if f.rev >= SPURIOUS_DRAGON then 50 else 10;
      var first := A.FirstBitSet(WordToBytes(exponent));
      A.LengthByZeros(WordToBytes(exponent));
      WordRoundTrip(exponent);
      runGas := 10 + byteCost * (32 - first / 8);
    }

    /** The arithmetic instructions as coded: masks, shifts and wider intermediate results. */
    method AluOf(o: Byte, s: seq<Word>) returns (v: Word)
      requires KindOf(o).Alu? && |s| >= KindOf(o).arity
      ensures v == AluValue(o, s)
    {
      if o == 0x01 { v := A.Add(s[0], s[1]); }
      else if o == 0x02 { v := A.Mul(s[0], s[1]); }
      else if o == 0x03 { v := A.Sub(s[0], s[1]); }
      else if o == 0x04 { v := A.Div(s[0], s[1]); }
      else if o == 0x06 { v := A.Mod(s[0], s[1]); }
      else if o == 0x08 { v := A.AddMod(s[0], s[1], s[2]); }
      else if o == 0x09 { v := A.MulMod(s[0], s[1], s[2]); }
      else if o == 0x0a { v := A.Exp256(s[0], s[1]); }
      else if o == 0x10 { v := if s[0] < s[1] then 1 else 0; }
      else if o == 0x11 { v := if s[0] > s[1] then 1 else 0; }
      else if o == 0x14 { v := if s[0] == s[1] then 1 else 0; }
      else if o == 0x15 { v := if s[0] == 0 then 1 else 0; }
      else if o == 0x19 { v := TWO_256 - 1 - s[0]; }
      else if o == 0x1b { v := A.Shl(s[0], s[1]); }
      else if o == 0x1c { v := A.Shr(s[0], s[1]); }
      else { v := SignedOrBitwise(o, s); }
    }

    method SignedOrBitwise(o: Byte, s: seq<Word>) returns (v: Word)
      requires o in {0x05, 0x07, 0x0b, 0x12, 0x13, 0x16, 0x17, 0x18, 0x1a, 0x1d} && |s| >= 2
      ensures v == AluValue(o, s)
    {
      if o == 0x05 {
        v := A.SDiv(s[0], s[1]);
        A.SDivCorrect(s[0], s[1]);
      } else if o == 0x07 {
        v := A.SMod(s[0], s[1]);
        A.SModCorrect(s[0], s[1]);
      } else if o == 0x0b {
        v := A.SignExtend(s[0], s[1]);
        A.SignExtendCorrect(s[0], s[1]);
      } else if o == 0x12 {
        v := A.Slt(s[0], s[1]);
        A.SignedCompareCorrect(s[0], s[1]);
      } else if o == 0x13 {
        v := A.Sgt(s[0], s[1]);
        A.SignedCompareCorrect(s[0], s[1]);
      } else if o == 0x1a {
        v := A.ByteOf(s[0], s[1]);
        A.ByteOfCorrect(s[0], s[1]);
      } else if o == 0x1d {
        v := A.Sar(s[0], s[1]);
        A.SarCorrect(s[0], s[1]);
      } else {
        BitWord(s[0], s[1]);
        v := if o == 0x16 then A.BitAnd(s[0], s[1]) else if o == 0x17 then A.BitOr(s[0], s[1]) else A.BitXor(s[0], s[1]);
      }
    }

    method CaseEnv(o: Byte, ghost st: State) returns (sig: Signal)
      requires KindOf(o).Env? && Fetched(st, o, 0, 1)
      modifies this, stack
      ensures Agrees(sig, StepEnv(h, f, st, o, Cost(f.rev, o)))
    {
      var ok := Pay(st);
      if !ok { return Raised(OutOfGas); }
      var v := EnvOf(o, Charge(st, runGas).value);
      Result(v, st, 0);
      return Continue;
    }

    /** The instructions that push something of the environment, reading the registers. */
    method EnvOf(o: Byte, ghost st: State) returns (v: Word)
      requires KindOf(o).Env? && Registers(st)
      ensures v == EnvValue(h, f, st, o)
    {
      if o == 0x30 { v := f.msg.destination; }
      else if o == 0x32 { v := h.tx.origin; }
      else if o == 0x33 { v := f.msg.sender; }
      else if o == 0x34 { v := f.msg.value; }
      else if o == 0x36 { v := Wrap64(|f.msg.input|); }
      else if o == 0x38 { v := Wrap64(|f.code|); }
      else if o == 0x3a { v := h.tx.gasPrice; }
      else if o == 0x3d { v := Wrap64(|returnData|); }
      else if o == 0x41 { v := h.tx.coinbase; }
      else if o == 0x42 { v := h.tx.timestamp; }
      else if o == 0x43 { v := Wrap64(h.tx.number); }
      else if o == 0x44 { v := h.tx.difficulty; }
      else if o == 0x45 { v := h.tx.gasLimit; }
      else if o == 0x46 { v := h.tx.chainId; }
      else if o == 0x47 { v := h.balance(trace, f.msg.destination); }
      else if o == 0x58 { v := Wrap64(pc); }
      else if o == 0x59 { v := Wrap64(|mem|); }
      else { v := Wrap64(ioGas); }
    }

    method CaseQuery(o: Byte, ghost st: State) returns (sig: Signal)
      requires KindOf(o).Query? && Fetched(st, o, 1, 1)
      modifies this, stack
      ensures Agrees(sig, StepQuery(h, f, st, o, Cost(f.rev, o)))
    {
      var x := stack[sp];
      var ok := Pay(st);
      if !ok { return Raised(OutOfGas); }
      var v := QueryOf(o, x);
      Result(v, st, 1);
      return Continue;
    }

    /** The instructions that replace the top by what the host or the input has for it. */
    method QueryOf(o: Byte, x: Word) returns (v: Word)
      requires KindOf(o).Query?
      ensures v == QueryValue(h, f, trace, o, x)
    {
      if o == 0x31 { v := h.balance(trace, ToAddress(x)); }
      else if o == 0x35 { v := CallDataLoad(x); }
      else if o == 0x3b { v := Wrap64(|h.code(trace, ToAddress(x))|); }
      else if o == 0x3f { v := h.codeHash(trace, ToAddress(x)); }
      else if o == 0x54 { v := h.storage(trace, f.msg.destination, x); }
      else {
        var number := h.tx.number;
        var lowest := if number > 256 then number - 256 else 0;
        v := if x < number && x >= lowest then h.blockHash(trace, x) else 0;
      }
    }

    /** CALLDATALOAD distinguishes a full word, nothing at all, and a word with zeros behind. */
    method CallDataLoad(x: Word) returns (v: Word)
      ensures v == BytesToWord(Padded(f.msg.input, x, 32))
    {
      var data, i: nat := f.msg.input, x;
      if i + 31 < |data| {
        assert data[i..i + 32] == Padded(data, i, 32);
        v := BytesToWord(data[i..i + 32]);
      } else if i >= |data| {
        assert Padded(data, i, 32) == Zeros(32);
        FromBEZeros(32);
        v := 0;
      } else {
        var r := FillWord(data, i);
        v := BytesToWord(r);
      }
    }

    method FillWord(data: Bytes, x: nat) returns (r: Bytes)
      ensures r == Padded(data, x, 32)
    {
      r := [];
      var i := x;
      while i < x + 32
        invariant x <= i <= x + 32 && |r| == i - x
        invariant forall j :: 0 <= j < i - x ==> r[j] == if x + j < |data| then data[x + j] else 0
      {
        r := r + [if i < |data| then data[i] else 0];
        i := i + 1;
      }
    }

    method CasePop(o: Byte, ghost st: State) returns (sig: Signal)
      requires KindOf(o).Pop? && Fetched(st, o, 1, 0)
      modifies this, stack
      ensures Agrees(sig, StepStack(st, o, Cost(f.rev, o)))
    {
      var ok := Pay(st);
      if !ok { return Raised(OutOfGas); }
      Dropped(st, 1);
      sp := sp - 1;
      pc := pc + 1;
      return Continue;
    }

    method CaseJumpdest(o: Byte, ghost st: State) returns (sig: Signal)
      requires KindOf(o).Jumpdest? && Fetched(st, o, 0, 0)
      modifies this, stack
      ensures Agrees(sig, StepStack(st, o, Cost(f.rev, o)))
    {
      var ok := Pay(st);
      if !ok { return Raised(OutOfGas); }
      pc := pc + 1;
      return Continue;
    }

    method CaseDup(o: Byte, ghost st: State) returns (sig: Signal)
      requires KindOf(o).Dup? && Fetched(st, o, 0, 1) && KindOf(o).depth < |st.stack|
      modifies this, stack
      ensures Agrees(sig, StepStack(st, o, Cost(f.rev, o)))
    {
      var ok := Pay(st);
      if !ok { return Raised(OutOfGas); }
      var n := o - 0x80;
      Result(stack[sp + n], st, 0);
      return Continue;
    }

    method CaseSwap(o: Byte, ghost st: State) returns (sig: Signal)
      requires KindOf(o).Swap? && Fetched(st, o, 0, 0) && KindOf(o).depth < |st.stack|
      modifies this, stack
      ensures Agrees(sig, StepStack(st, o, Cost(f.rev, o)))
    {
      var ok := Pay(st);
      if !ok { return Raised(OutOfGas); }
      var n := o - 0x90 + 1;
      SwapTop(n, st);
      pc := pc + 1;
      return Continue;
    }

    method SwapTop(n: nat, ghost st: State)
      requires Operands(st, 0, 0) && 0 < n < |st.stack|
      modifies stack
      ensures stack[sp..] == st.stack[0 := st.stack[n]][n := st.stack[0]]
    {
      stack[sp], stack[sp + n] := stack[sp + n], stack[sp];
    }

    // ---- Memory ----

    method CaseMload(o: Byte, ghost st: State) returns (sig: Signal)
      requires KindOf(o).Mload? && Fetched(st, o, 1, 1)
      modifies this, stack
      ensures Agrees(sig, StepMload(st, Cost(f.rev, o)))
    {
      var offset := stack[sp];
      var ok := PayAccess(offset, 32, Cost(f.rev, o), st);
      if !ok { return Raised(OutOfGas); }
      LoadWord(offset, Expand(st, offset + 32, Cost(f.rev, o), 0).value, st);
      return Continue;
    }

    method LoadWord(offset: Word, ghost s: State, ghost st: State)
      requires Registers(s) && Operands(st, 1, 1) && offset + 32 <= |s.mem|
      modifies this, stack
      ensures var at := Cast32(offset);
              Agrees(Continue, Next(s.(pc := s.pc + 1, stack := [BytesToWord(s.mem[at..at + 32])] + st.stack[1..])))
    {
      var at := Wrap32(offset);
      Result(BytesToWord(mem[at..at + 32]), st, 1);
    }

    method CaseMstore(o: Byte, ghost st: State) returns (sig: Signal)
      requires KindOf(o).Mstore? && Fetched(st, o, 2, 0)
      modifies this, stack
      ensures Agrees(sig, StepMstore(st, o, Cost(f.rev, o)))
    {
      var value := stack[sp + 1];
      sig := CaseStore(if o == 0x52 then WordToBytes(value) else [value % 256], Cost(f.rev, o), st);
    }

    method CaseStore(data: Bytes, ghost cost: nat, ghost st: State) returns (sig: Signal)
      requires |data| <= 32 && Primed(st, cost, 2, 0)
      modifies this, stack
      ensures Agrees(sig, StepStore(st, data, cost))
    {
      var offset := stack[sp];
      var ok := PayAccess(offset, |data|, cost, st);
      if !ok { return Raised(OutOfGas); }
      StoreBytes(offset, data, Expand(st, offset + |data|, cost, 0).value, st);
      return Continue;
    }

    /** `updateMem(memNeed(offset, size)); updateIOGas();` */
    method PayRange(offset: Word, size: Word, ghost base: nat, ghost st: State) returns (ok: bool)
      requires Registers(st) && runMemory == 0 && runGas == base && GasForMem(|st.mem|) <= INT63_MAX
      requires MemNeed(offset, size).Some? ==> base + WordGas(copyMemSize, 3) <= INT63_MAX && copyMemSize <= INT63_MAX
      modifies this`newMemSize, this`runGas, this`mem, this`runMemory, this`ioGas, this`memoryGas, this`fixedGas
      ensures ok == (MemNeed(offset, size).Some? && Expand(st, MemNeed(offset, size).value, base, copyMemSize).Some?)
      ensures ok ==> Registers(Expand(st, MemNeed(offset, size).value, base, copyMemSize).value)
      ensures ok ==> MemNeed(offset, size).value <= |mem|
    {
      var need := MemNeed(offset, size);
      if need.None? { return false; }
      ok := PayMem(need.value, st);
    }

    /** `updateMem(toInt63(offset) + n); updateIOGas();` */
    method PayAccess(offset: Word, n: nat, ghost cost: nat, ghost st: State) returns (ok: bool)
      requires n <= 32 && Registers(st) && runMemory == 0 && copyMemSize == 0 && runGas == cost <= TABLE_MAX
      requires GasForMem(|st.mem|) <= INT63_MAX
      modifies this`newMemSize, this`runGas, this`mem, this`runMemory, this`ioGas, this`memoryGas, this`fixedGas
      ensures ok == (offset <= INT63_MAX && Expand(st, offset + n, cost, 0).Some?)
      ensures ok ==> Registers(Expand(st, offset + n, cost, 0).value) && offset + n <= |mem|
    {
      if offset > INT63_MAX { return false; }
      ok := PayMem(offset + n, st);
    }

    method StoreBytes(offset: Word, data: Bytes, ghost s: State, ghost st: State)
      requires Registers(s) && Operands(st, 2, 0) && offset + |data| <= |s.mem|
      modifies this, stack
      ensures Agrees(Continue, Next(s.(pc := s.pc + 1, stack := st.stack[2..], mem := Splice(s.mem, Cast32(offset), data))))
    {
      mem := Splice(mem, Wrap32(offset), data);
      pc := pc + 1;
      Dropped(st, 2);
    }

    method CaseSha3(o: Byte, ghost st: State) returns (sig: Signal)
      requires KindOf(o).Sha3? && Fetched(st, o, 2, 1)
      modifies this, stack
      ensures Agrees(sig, StepSha3(h, st))
    {
      var offset, size := stack[sp], stack[sp + 1];
      var base := 30 + WordGas(size, 6);
      if base > INT63_MAX { return Raised(OutOfGas); }
      runGas := base;
      var ok := PayRange(offset, size, base, st);
      if !ok { return Raised(OutOfGas); }
      SliceCast(mem, offset, size);
      Result(h.keccak(Slice(mem, Wrap64(offset), Wrap64(size))), st, 2);
      return Continue;
    }

    method CaseCopy(o: Byte, ghost st: State) returns (sig: Signal)
      requires KindOf(o).Copy? && o != EXTCODECOPY && Fetched(st, o, 3, 0)
      modifies this, stack
      ensures Agrees(sig, StepCopy(h, f, st, o, Cost(f.rev, o)))
    {
      var data := if o == 0x37 then f.msg.input else if o == 0x39 then f.code else returnData;
      var offset, index: nat, size: nat := stack[sp], stack[sp + 1], stack[sp + 2];
      if o == RETURNDATACOPY && |returnData| < index + size { return Raised(InvalidMemoryAccess); }
      sig := Copy(CopyArgs(data, offset, index, size, 3), Cost(f.rev, o), st);
    }

    method CaseExtCodeCopy(o: Byte, ghost st: State) returns (sig: Signal)
      requires o == EXTCODECOPY && Fetched(st, o, 4, 0)
      modifies this, stack
      ensures Agrees(sig, StepCopy(h, f, st, o, Cost(f.rev, o)))
    {
      var data := h.code(trace, ToAddress(stack[sp]));
      sig := Copy(CopyArgs(data, stack[sp + 1], Capped64(stack[sp + 2]), stack[sp + 3], 4), Cost(f.rev, o), st);
    }

    /** The part all copy instructions share: pay, copy, drop the operands. */
    method Copy(a: CopyArgs, ghost cost: nat, ghost st: State) returns (sig: Signal)
      requires Primed(st, cost, a.arity, 0)
      modifies this, stack
      ensures Agrees(sig, CopyIn(st, a, cost))
    {
      if a.size > INT63_MAX { return Raised(OutOfGas); }
      copyMemSize := a.size;
      var ok := PayRange(a.offset, a.size, cost, st);
      if !ok { return Raised(OutOfGas); }
      CopyDataToMemory(a.data, a.offset, a.index, a.size);
      pc := pc + 1;
      Dropped(st, a.arity);
      return Continue;
    }

    /** `copyDataToMemory`: what there is of the data, then zeros. */
    method CopyDataToMemory(data: Bytes, offset: Word, index: nat, size: Word)
      requires MemNeed(offset, size).Some? && MemNeed(offset, size).value <= |mem|
      modifies this`mem
      ensures mem == if size == 0 then old(mem) else Splice(old(mem), offset, Padded(data, index, size))
    {
      SliceCast(mem, offset, size);
      var at, n := Wrap64(offset), Wrap64(size);
      var copied := if index + n > |data| then (if |data| < index then 0 else |data| - index) else n;
      if n > 0 { Fill(data, at, index, n, copied); }
    }

    /** The `memcpy` and the `memset` behind it. */
    method Fill(data: Bytes, at: nat, index: nat, n: nat, copied: nat)
      requires at + n <= |mem| && copied <= n
      requires copied == if index + n > |data| then (if |data| < index then 0 else |data| - index) else n
      modifies this`mem
      ensures mem == Splice(old(mem), at, Padded(data, index, n))
    {
      PaddedParts(data, index, n, copied);
      SpliceParts(mem, at, Padded(data, index, copied), Zeros(n - copied));
      if copied > 0 {
        mem := Splice(mem, at, data[index..index + copied]);
      }
      if n > copied {
        mem := Splice(mem, at + copied, Zeros(n - copied));
      }
    }

    // ---- State changes and halting ----

    method CaseLog(o: Byte, ghost st: State) returns (sig: Signal)
      requires KindOf(o).Log? && Fetched(st, o, KindOf(o).topics + 2, 0)
      modifies this, stack
      ensures Agrees(sig, StepLog(f, st, KindOf(o).topics))
    {
      if f.msg.isStatic { return Raised(StaticModeViolation); }
      sig := Log(o - 0xa0, Cost(f.rev, o), st);
    }

    /** `logGasMem` and the rest of the LOG instructions. */
    method Log(n: nat, ghost cost: nat, ghost st: State) returns (sig: Signal)
      requires n <= 4 && Primed(st, cost, n + 2, 0) && !f.msg.isStatic
      modifies this, stack
      ensures Agrees(sig, StepLog(f, st, n))
    {
      var offset, size := stack[sp], stack[sp + 1];
      if LogBase(n, size) > INT63_MAX { return Raised(OutOfGas); }
      runGas := LogBase(n, size);
      var ok := PayRange(offset, size, LogBase(n, size), st);
      if !ok { return Raised(OutOfGas); }
      WriteLog(n, offset, size, Expand(st, MemNeed(offset, size).value, LogBase(n, size), 0).value, st);
      return Continue;
    }

    method WriteLog(n: nat, offset: Word, size: Word, ghost s: State, ghost st: State)
      requires Registers(s) && Operands(st, n + 2, 0)
      requires MemNeed(offset, size).Some? && MemNeed(offset, size).value <= |s.mem|
      modifies this, stack
      ensures var e := EmitLog(f.msg.destination, Slice(s.mem, offset, size), st.stack[2..n + 2]);
              Agrees(Continue, Next(s.(pc := s.pc + 1, stack := st.stack[n + 2..], trace := s.trace + [e])))
    {
      SliceCast(mem, offset, size);
      var topics := stack[sp + 2..sp + 2 + n];
      assert topics == st.stack[2..n + 2];
      trace := trace + [EmitLog(f.msg.destination, Slice(mem, Wrap64(offset), Wrap64(size)), topics)];
      pc := pc + 1;
      Dropped(st, n + 2);
    }

    method CaseSstore(o: Byte, ghost st: State) returns (sig: Signal)
      requires KindOf(o).Sstore? && Fetched(st, o, 2, 0)
      modifies this, stack
      ensures Agrees(sig, StepSstore(h, f, st))
    {
      if f.msg.isStatic { return Raised(StaticModeViolation); }
      if f.rev >= ISTANBUL && ioGas <= CALL_STIPEND { return Raised(OutOfGas); }
      var key, value := stack[sp], stack[sp + 1];
      SstoreFee(h.storageStatus(trace, f.msg.destination, key, value));
      var ok := Pay(st);
      trace := trace + [SetStorage(f.msg.destination, key, value)];
      if !ok { return Raised(OutOfGas); }
      pc := pc + 1;
      Dropped(st, 2);
      return Continue;
    }

    method SstoreFee(status: StorageStatus)
      modifies this`runGas
      ensures runGas == SstoreGas(f.rev, status)
    {
      match status
      case Added => runGas := 20000;
      case Modified => runGas := 5000;
      case Deleted => runGas := 5000;
      case Unchanged => runGas := if f.rev == CONSTANTINOPLE || f.rev >= ISTANBUL then Cost(f.rev, SLOAD) else 5000;
      case ModifiedAgain => runGas := if f.rev == CONSTANTINOPLE || f.rev >= ISTANBUL then Cost(f.rev, SLOAD) else 5000;
    }

    method CaseStop(o: Byte, ghost st: State) returns (sig: Signal)
      requires KindOf(o).Stop? && Fetched(st, o, 0, 0)
      modifies this, stack
      ensures Agrees(sig, StepStop(st, Cost(f.rev, o)))
    {
      var ok := Pay(st);
      if !ok { return Raised(OutOfGas); }
      output := [];
      return Stopped(false);
    }

    method CaseReturn(o: Byte, ghost st: State) returns (sig: Signal)
      requires KindOf(o).Return? && Fetched(st, o, 2, 0)
      modifies this, stack
      ensures Agrees(sig, StepReturn(st, o, Cost(f.rev, o)))
    {
      var offset, size := stack[sp], stack[sp + 1];
      var ok := PayRange(offset, size, Cost(f.rev, o), st);
      if !ok { return Raised(OutOfGas); }
      SliceCast(mem, offset, size);
      output := Slice(mem, Wrap64(offset), Wrap64(size));
      return Stopped(o == REVERT);
    }

    method CaseSelfDestruct(o: Byte, ghost st: State) returns (sig: Signal)
      requires KindOf(o).SelfDestruct? && Fetched(st, o, 1, 0)
      modifies this, stack
      ensures Agrees(sig, StepSelfDestruct(h, f, st, Cost(f.rev, o)))
    {
      if f.msg.isStatic { return Raised(StaticModeViolation); }
      var ok := Pay(st);
      if !ok { return Raised(OutOfGas); }
      var to := ToAddress(stack[sp]);
      if f.rev >= TANGERINE_WHISTLE {
        if f.rev == TANGERINE_WHISTLE || h.balance(trace, f.msg.destination) > 0 {
          if !h.accountExists(trace, to) {
            runGas := NEW_ACCOUNT_GAS;
            ok := Pay(Charge(st, Cost(f.rev, o)).value);
            if !ok { return Raised(OutOfGas); }
          }
        }
      }
      output := [];
      trace := trace + [Destruct(f.msg.destination, to)];
      return Stopped(false);
    }

    // ---- Control ----

    method CasePush(o: Byte, ghost st: State) returns (sig: Signal)
      requires KindOf(o).Push? && Fetched(st, o, 0, 1) && Fetchable(Image(), st.pc) && code[st.pc] == o
      modifies this, stack
      ensures Agrees(sig, StepPush(Image(), st, o, Cost(f.rev, o)))
    {
      var ok := Pay(st);
      if !ok { return Raised(OutOfGas); }
      var v := ReadPush(o - PUSH1 + 1);
      stack[spp] := v;
      return Continue;
    }

    /** The bytes behind the opcode, most significant first; `pc` ends behind them. */
    method ReadPush(n: nat) returns (v: Word)
      requires 0 < n <= 32 && pc + n < |code|
      modifies this`pc
      ensures v == PushedAt(code, old(pc), n) && pc == old(pc) + 1 + n
    {
      ghost var start := pc;
      var x: nat, left := 0, n;
      pc := pc + 1;
      while left != 0
        invariant left <= n && pc == start + 1 + n - left
        invariant x == BEAt(code, start + 1, n - left)
      {
        x := x * 256 + code[pc];
        left := left - 1;
        pc := pc + 1;
      }
      assert x == PushedAt(code, start, n);
      v := x;
    }

    method CasePushc(o: Byte, ghost st: State) returns (sig: Signal)
      requires KindOf(o).PooledPush? && Fetched(st, o, 0, 1) && Fetchable(Image(), st.pc) && code[st.pc] == o
      modifies this, stack
      ensures Agrees(sig, StepPush(Image(), st, o, Cost(f.rev, o)))
    {
      if !pooled { return Raised(BadInstruction); }
      var ok := Pay(st);
      if !ok { return Raised(OutOfGas); }
      pc := pc + 1;
      var high: nat := code[pc];
      pc := pc + 1;
      var low: nat := code[pc];
      pc := pc + 1;
      pc := pc + code[pc];
      stack[spp] := pool[256 * high + low];
      return Continue;
    }

    method CaseJump(o: Byte, ghost st: State) returns (sig: Signal)
      requires (KindOf(o).Jump? || KindOf(o).DirectJump?) && Fetched(st, o, 1, 0) && Increasing(jumpDests)
      modifies this, stack
      ensures Agrees(sig, StepJump(Image(), st, o, Cost(f.rev, o)))
    {
      var direct := o == JUMPC;
      if direct && !pooled { return Raised(BadInstruction); }
      var ok := Pay(st);
      if !ok { return Raised(OutOfGas); }
      Dropped(st, 1);
      ok := SetPc(direct, stack[sp]);
      return if ok then Continue else Raised(BadJumpDestination);
    }

    method CaseJumpi(o: Byte, ghost st: State) returns (sig: Signal)
      requires (KindOf(o).Jumpi? || KindOf(o).DirectJumpi?) && Fetched(st, o, 2, 0) && Increasing(jumpDests)
      modifies this, stack
      ensures Agrees(sig, StepJump(Image(), st, o, Cost(f.rev, o)))
    {
      var direct := o == JUMPCI;
      if direct && !pooled { return Raised(BadInstruction); }
      var ok := Pay(st);
      if !ok { return Raised(OutOfGas); }
      Dropped(st, 2);
      if stack[sp + 1] != 0 {
        ok := SetPc(direct, stack[sp]);
        return if ok then Continue else Raised(BadJumpDestination);
      }
      pc := pc + 1;
      return Continue;
    }

    /** A direct jump trusts its destination; any other is checked against the table. */
    method SetPc(direct: bool, dest: Word) returns (ok: bool)
      requires Increasing(jumpDests)
      modifies this`pc
      ensures ok == (direct || Verified(jumpDests, dest))
      ensures ok ==> pc == if direct then Wrap64(dest) else dest
    {
      if direct {
        pc := Wrap64(dest);
        return true;
      }
      var d := VerifyJumpDest(jumpDests, dest);
      if d < 0 { return false; }
      pc := d;
      return true;
    }

    // ---- Messages ----

    method CaseCreate(o: Byte, ghost st: State) returns (sig: Signal)
      requires KindOf(o).CreateAccount? && Fetched(st, o, CreateArity(o), 1) && Fair(call)
      modifies this, stack
      ensures Deliverable(StepCreate(h, f, st, o))
      ensures Agrees(sig, Answered(call, StepCreate(h, f, st, o)))
    {
      if f.msg.isStatic { return Raised(StaticModeViolation); }
      var endowment, offset, size := stack[sp], stack[sp + 1], stack[sp + 2];
      var ok := PayCreation(o, offset, size, st);
      if !ok { return Raised(OutOfGas); }
      returnData := [];
      ghost var s := Expand(st, MemNeed(offset, size).value, CreateBase(o, size).value, 0).value.(returnData := []);
      CreateOut(o, endowment, offset, size, s);
      return Continue;
    }

    method PayCreation(o: Byte, offset: Word, size: Word, ghost st: State) returns (ok: bool)
      requires KindOf(o).CreateAccount? && Registers(st) && runMemory == 0 && copyMemSize == 0 && GasForMem(|st.mem|) <= INT63_MAX
      modifies this`newMemSize, this`runGas, this`mem, this`runMemory, this`ioGas, this`memoryGas, this`fixedGas
      ensures ok == (CreateBase(o, size).Some? && MemNeed(offset, size).Some?
                     && Expand(st, MemNeed(offset, size).value, CreateBase(o, size).value, 0).Some?)
      ensures ok ==> Registers(Expand(st, MemNeed(offset, size).value, CreateBase(o, size).value, 0).value)
      ensures ok ==> MemNeed(offset, size).value <= |mem|
    {
      ok := CreateCharges(o, size);
      if !ok { return false; }
      if MemNeed(offset, size).Some? { CreateBaseBounded(o, offset, size); }
      ok := PayRange(offset, size, CreateBase(o, size).value, st);
    }

    /** The charges of `caseCreate` before memory. */
    method CreateCharges(o: Byte, size: Word) returns (ok: bool)
      requires KindOf(o).CreateAccount?
      modifies this`runGas
      ensures ok == CreateBase(o, size).Some? && (ok ==> runGas == CreateBase(o, size).value)
    {
      runGas := CREATE_GAS;
      if o == CREATE2 {
        var hashing := WordGas(size, 6);
        if hashing > INT63_MAX { return false; }
        runGas := Wrap64(runGas + hashing);
      }
      return true;
    }

    /** `caseCreate` from the balance check on; `s` has paid. */
    method CreateOut(o: Byte, endowment: Word, offset: Word, size: Word, ghost s: State)
      requires KindOf(o).CreateAccount? && Operands(s, CreateArity(o), 1) && Registers(s) && Fair(call)
      requires s.gas <= INT63_MAX && MemNeed(offset, size).Some? && MemNeed(offset, size).value <= |s.mem|
      modifies this, stack
      ensures Deliverable(SendCreate(h, f, s, o, endowment, offset, size))
      ensures Agrees(Continue, Answered(call, SendCreate(h, f, s, o, endowment, offset, size)))
    {
      if h.balance(trace, f.msg.destination) >= endowment && f.msg.depth < DEPTH_LIMIT {
        SliceCast(mem, offset, size);
        var msg := MakeCreation(o, endowment, Slice(mem, Wrap64(offset), Wrap64(size)), s);
        DeliverCreate(o, msg, s.(stack := s.stack[CreateArity(o)..]), s);
      } else {
        Result(0, s, CreateArity(o));
      }
    }

    /** The message `caseCreate` fills in field by field. */
    method MakeCreation(o: Byte, endowment: Word, init: Bytes, ghost s: State) returns (msg: Message)
      requires KindOf(o).CreateAccount? && Operands(s, CreateArity(o), 1) && ioGas == s.gas
      ensures msg == CreateMessage(f, o, endowment, Offered(f.rev, s.gas, s.gas), init, if o == CREATE then 0 else s.stack[3])
    {
      var gas := ioGas;
      if f.rev >= TANGERINE_WHISTLE { gas := gas - gas / 64; }
      var salt := if o == CREATE then 0 else stack[sp + 3];
      msg := Message(if o == CREATE then Create else Create2, false, f.msg.depth + 1, gas, 0, f.msg.destination, init, endowment, salt);
    }

    /** The host call of `caseCreate` and what follows it; the gas is taken only afterwards. */
    method DeliverCreate(o: Byte, msg: Message, ghost rest: State, ghost s: State)
      requires Operands(s, CreateArity(o), 1) && Registers(rest) && rest.stack == s.stack[CreateArity(o)..] && Fair(call)
      requires msg.gas <= rest.gas <= INT63_MAX && (msg.kind.Create? || msg.kind.Create2?)
      modifies this, stack
      ensures var (res, after) := call(rest.trace, msg);
              Agrees(Continue, Next(Resume(rest.(gas := rest.gas - msg.gas), msg, CreateSlot, res, after)))
    {
      var (res, after) := call(trace, msg);
      returnData, trace := res.output, after;
      ioGas := Wrap64(ioGas - Wrap64(msg.gas - res.gasLeft));
      callGas := callGas + (msg.gas - res.gasLeft);
      Result(if res.status.Success? then res.created else 0, s, CreateArity(o));
    }

    method CaseCall(o: Byte, ghost st: State) returns (sig: Signal)
      requires KindOf(o).MessageCall? && Fetched(st, o, CallArity(o), 1) && Fair(call)
      modifies this, stack
      ensures Deliverable(StepCall(h, f, st, o, Cost(f.rev, o)))
      ensures Agrees(sig, Answered(call, StepCall(h, f, st, o, Cost(f.rev, o))))
    {
      sig := CaseCallAt(o, Cost(f.rev, o), st);
    }

    method CaseCallAt(o: Byte, ghost cost: nat, ghost st: State) returns (sig: Signal)
      requires KindOf(o).MessageCall? && Primed(st, cost, CallArity(o), 1) && Fair(call)
      modifies this, stack
      ensures Deliverable(StepCall(h, f, st, o, cost)) && Agrees(sig, Answered(call, StepCall(h, f, st, o, cost)))
    {
      var a := CallOperands(o, st);
      if o == CALL && f.msg.isStatic && a.value != 0 { return Raised(StaticModeViolation); }
      var ok := PayCall(o, a, cost, st);
      if !ok { return Raised(OutOfGas); }
      returnData := [];
      ghost var s := Expand(st, MaxNeed(a).value, CallBase(h, f, st.trace, o, cost, a), 0).value.(returnData := []);
      sig := CallOutAndBack(o, a, s);
    }

    /** The operands of a call: without a value argument the windows come one place earlier. */
    method CallOperands(o: Byte, ghost st: State) returns (a: CallArgs)
      requires KindOf(o).MessageCall? && Operands(st, CallArity(o), 1)
      ensures a == ArgsOf(o, st.stack)
    {
      var haveValueArg := o == CALL || o == CALLCODE;
      var k := sp + if haveValueArg then 3 else 2;
      a := CallArgs(stack[sp], ToAddress(stack[sp + 1]), if haveValueArg then stack[sp + 2] else 0,
                    stack[k], stack[k + 1], stack[k + 2], stack[k + 3]);
    }

    method PayCall(o: Byte, a: CallArgs, ghost cost: nat, ghost st: State) returns (ok: bool)
      requires Primed(st, cost, CallArity(o), 1) && (a.value > 0 ==> HasValueArg(o))
      modifies this`newMemSize, this`runGas, this`mem, this`runMemory, this`ioGas, this`memoryGas, this`fixedGas
      ensures ok == (MaxNeed(a).Some? && Expand(st, MaxNeed(a).value, CallBase(h, f, st.trace, o, cost, a), 0).Some?)
      ensures ok ==> Registers(Expand(st, MaxNeed(a).value, CallBase(h, f, st.trace, o, cost, a), 0).value)
      ensures ok ==> MaxNeed(a).value <= |mem| && ioGas <= INT63_MAX && (a.value > 0 ==> ioGas + CALL_STIPEND <= INT63_MAX)
    {
      CallCharges(o, a);
      var need := MaxNeed(a);
      if need.None? { return false; }
      ok := PayMem(need.value, st);
    }

    /** The charges of `caseCallSetup` before memory. */
    method CallCharges(o: Byte, a: CallArgs)
      requires runGas <= TABLE_MAX && (a.value > 0 ==> HasValueArg(o))
      modifies this`runGas
      ensures runGas == CallBase(h, f, trace, o, old(runGas), a)
    {
      if f.rev >= BERLIN && f.msg.destination == a.to { runGas := CALL_SELF_GAS; }
      if o == CALL && (a.value > 0 || f.rev < SPURIOUS_DRAGON) && !h.accountExists(trace, a.to) {
        runGas := Wrap64(runGas + NEW_ACCOUNT_GAS);
      }
      if HasValueArg(o) && a.value > 0 {
        runGas := Wrap64(runGas + VALUE_TRANSFER_GAS);
      }
    }

    /** `caseCallSetup` from the call gas on, and `caseCall` around it; `s` has paid. */
    method CallOutAndBack(o: Byte, a: CallArgs, ghost s: State) returns (sig: Signal)
      requires KindOf(o).MessageCall? && Operands(s, CallArity(o), 1) && Registers(s) && Fair(call)
      requires s.gas <= INT63_MAX && (a.value > 0 ==> HasValueArg(o) && s.gas + CALL_STIPEND <= INT63_MAX)
      requires MaxNeed(a).Some? && MaxNeed(a).value <= |s.mem|
      modifies this, stack
      ensures Deliverable(SendCall(h, f, s, o, a))
      ensures Agrees(sig, Answered(call, SendCall(h, f, s, o, a)))
    {
      var gas, ok := TakeCallGas(a.gas);
      if !ok { return Raised(OutOfGas); }
      SliceCast(mem, a.inOffset, a.inSize);
      var msg := MakeMessage(o, a, gas, Slice(mem, Wrap64(a.inOffset), Wrap64(a.inSize)));
      var affordable := a.value == 0 || h.balance(trace, f.msg.destination) >= a.value;
      ghost var rest := s.(gas := s.gas - gas, stack := s.stack[CallArity(o)..]);
      if affordable && f.msg.depth < DEPTH_LIMIT {
        DeliverCall(o, a.outOffset, a.outSize, msg, rest, s);
      } else {
        Keep(o, msg.gas, msg.gas - gas, rest, s);
      }
      return Continue;
    }

    /** The message `caseCallSetup` fills in field by field. */
    method MakeMessage(o: Byte, a: CallArgs, gas: nat, input: Bytes) returns (msg: Message)
      requires KindOf(o).MessageCall? && (a.value > 0 ==> HasValueArg(o)) && gas <= INT63_MAX
      ensures msg == CallMessage(f, o, a, gas, input)
    {
      var kind := if o == CALLCODE then CallCode else if o == DELEGATECALL then DelegateCall else Call;
      msg := Message(kind, o == STATICCALL || f.msg.isStatic, f.msg.depth + 1, gas, a.to, f.msg.destination, input, 0, 0);
      if HasValueArg(o) {
        if a.value > 0 {
          msg := msg.(value := a.value, gas := Wrap64(msg.gas + CALL_STIPEND));
        }
      } else if o == DELEGATECALL {
        msg := msg.(sender := f.msg.sender, value := f.msg.value);
      }
    }

    /** The gas passed on: all but one 64th at most from Tangerine Whistle on. */
    method TakeCallGas(wanted: Word) returns (gas: nat, ok: bool)
      modifies this`ioGas, this`runGas
      ensures gas == Offered(f.rev, wanted, old(ioGas))
      ensures ok == (gas <= INT63_MAX && gas <= old(ioGas)) && ioGas == if ok then old(ioGas) - gas else old(ioGas)
    {
      gas := wanted;
      if f.rev >= TANGERINE_WHISTLE {
        var most := ioGas - ioGas / 64;
        if most < gas { gas := most; }
      }
      if gas > INT63_MAX { return gas, false; }
      runGas := gas;
      ok := UpdateIOGas();
    }

    /** A call that is not made pushes 0 and gives back the gas of its message. */
    method Keep(o: Byte, gas: nat, ghost stipend: nat, ghost rest: State, ghost s: State)
      requires Operands(s, CallArity(o), 1) && Registers(rest) && rest.stack == s.stack[CallArity(o)..]
      requires rest.gas <= INT63_MAX && gas <= INT63_MAX
      modifies this, stack
      ensures Agrees(Continue, Next(Refuse(rest, gas, stipend)))
    {
      ioGas := Wrap64(ioGas + gas);
      stipends := stipends + stipend;
      Result(0, s, CallArity(o));
    }

    /** The host call of `caseCall` and what follows it. */
    method DeliverCall(o: Byte, offset: Word, size: Word, msg: Message, ghost rest: State, ghost s: State)
      requires Operands(s, CallArity(o), 1) && Registers(rest) && rest.stack == s.stack[CallArity(o)..] && Fair(call)
      requires MemNeed(offset, size).Some? && MemNeed(offset, size).value <= |rest.mem|
      requires rest.gas <= INT63_MAX && msg.gas <= INT63_MAX
      modifies this, stack
      ensures var (res, after) := call(rest.trace, msg);
              Agrees(Continue, Next(Resume(rest, msg, CallSlot(offset, size), res, after)))
    {
      var (res, after) := call(trace, msg);
      Receive(offset, size, msg, res, after, rest);
      Result(if res.status.Success? then 1 else 0, s, CallArity(o));
    }

    method Receive(offset: Word, size: Word, ghost msg: Message, res: Hosts.Result, after: Trace, ghost rest: State)
      requires Registers(rest) && res.gasLeft <= msg.gas && rest.gas <= INT63_MAX && msg.gas <= INT63_MAX
      requires MemNeed(offset, size).Some? && MemNeed(offset, size).value <= |rest.mem|
      modifies this`returnData, this`trace, this`mem, this`ioGas, this`callGas, this`stipends
      ensures Registers(Resume(rest, msg, CallSlot(offset, size), res, after).(pc := rest.pc))
    {
      returnData, trace := res.output, after;
      SliceCast(mem, offset, size);
      CopyTo(res.output, Wrap64(offset), Wrap64(size));
      ioGas := Wrap64(ioGas + res.gasLeft);
      callGas := callGas + (msg.gas - res.gasLeft);
      stipends := stipends + Stipend(msg, CallSlot(offset, size));
    }

    /** `copyTo` of the return data into the output window: as much as there is and fits. */
    method CopyTo(data: Bytes, offset: nat, size: nat)
      requires size > 0 ==> offset + size <= |mem|
      modifies this`mem
      ensures mem == if size > 0 then Splice(old(mem), offset, data[..if |data| < size then |data| else size]) else old(mem)
    {
      var n := if |data| < size then |data| else size;
      if n > 0 { mem := Splice(mem, offset, data[..n]); }
    }

    // ---- The loop ----

    ghost predicate At(st: State)
      reads this, stack
    {
      stack.Length == STACK_LIMIT && 0 <= spp <= STACK_LIMIT && stack[spp..] == st.stack && Registers(st)
    }

    /** `fetchInstruction`.  Whatever a handler left in `sp` is overwritten here. */
    method FetchInstruction(ghost st: State) returns (e: Option<Error>)
      requires At(st) && pc < |code| && st.gas <= INT63_MAX && GasForMem(|st.mem|) <= INT63_MAX
      modifies this
      ensures op == code[st.pc] && Registers(st)
      ensures e == if |st.stack| < Required(f.rev, op) then Some(StackUnderflow)
                   else if |st.stack| + Change(f.rev, op) > STACK_LIMIT then Some(StackOverflow)
                   else None
      ensures e.None? && Available(f.rev, op) ==> Fetched(st, op, Drops(op), Pushes(op))
    {
      op := code[pc];
      e := AdjustStack(Required(f.rev, op), Change(f.rev, op));
      if e.None? {
        runGas := Cost(f.rev, op);
        newMemSize := |mem|;
        copyMemSize := 0;
        runMemory := 0;
        if Available(f.rev, op) { HeightsSuffice(f.rev, op); }
      }
    }

    /** One pass through the switch. */
    method Dispatch(o: Byte, ghost st: State) returns (sig: Signal)
      requires Available(f.rev, o) && Required(f.rev, o) <= |st.stack| && Fetched(st, o, Drops(o), Pushes(o))
      requires Fetchable(Image(), st.pc) && code[st.pc] == o && Increasing(jumpDests) && Fair(call)
      requires |st.stack| + Change(f.rev, o) <= STACK_LIMIT
      modifies this, stack
      ensures Deliverable(Step(h, f, Image(), st))
      ensures Agrees(sig, Answered(call, Step(h, f, Image(), st)))
    {
      if KindOf(o).Push? { sig := CasePush(o, st); }
      else if KindOf(o).PooledPush? { sig := CasePushc(o, st); }
      else if KindOf(o).Jump? || KindOf(o).DirectJump? { sig := CaseJump(o, st); }
      else if KindOf(o).Jumpi? || KindOf(o).DirectJumpi? { sig := CaseJumpi(o, st); }
      else { sig := DispatchPlain(o, st); }
    }

    method DispatchPlain(o: Byte, ghost st: State) returns (sig: Signal)
      requires Available(f.rev, o) && Required(f.rev, o) <= |st.stack| && Fetched(st, o, Drops(o), Pushes(o))
      requires !Control(o) && Fair(call)
      modifies this, stack
      ensures Deliverable(StepPlain(h, f, st, o, Cost(f.rev, o)))
      ensures Agrees(sig, Answered(call, StepPlain(h, f, st, o, Cost(f.rev, o))))
    {
      match KindOf(o) {
        case CreateAccount => sig := CaseCreate(o, st);
        case MessageCall => sig := CaseCall(o, st);
        case Stop => sig := CaseStop(o, st);
        case Return => sig := CaseReturn(o, st);
        case SelfDestruct => sig := CaseSelfDestruct(o, st);
        case Bad => sig := Raised(if o == INVALID then InvalidInstruction else BadInstruction);
        case Sstore => sig := CaseSstore(o, st);
        case Log(_) => sig := CaseLog(o, st);
        case Copy =>
          if o == EXTCODECOPY { sig := CaseExtCodeCopy(o, st); } else { sig := CaseCopy(o, st); }
        case Mload => sig := CaseMload(o, st);
        case Mstore => sig := CaseMstore(o, st);
        case Sha3 => sig := CaseSha3(o, st);
        case Alu(_) => sig := CaseAlu(o, st);
        case Env => sig := CaseEnv(o, st);
        case Query => sig := CaseQuery(o, st);
        case Pop => sig := CasePop(o, st);
        case Jumpdest => sig := CaseJumpdest(o, st);
        case Dup(_) => sig := CaseDup(o, st);
        case Swap(_) => sig := CaseSwap(o, st);
      }
    }

    /** One round of `interpretCases`. */
    method InterpretOne(ghost st: State) returns (sig: Signal)
      requires At(st) && st.gas <= INT63_MAX && GasForMem(|st.mem|) <= INT63_MAX
      requires Fetchable(Image(), st.pc) && Increasing(jumpDests) && Fair(call)
      modifies this, stack
      ensures Deliverable(Step(h, f, Image(), st))
      ensures Agrees(sig, Answered(call, Step(h, f, Image(), st)))
    {
      var e := FetchInstruction(st);
      if e.Some? { return Raised(e.value); }
      if !Available(f.rev, op) { return Raised(BadInstruction); }
      sig := Dispatch(op, st);
    }

    /** `exec` up to the loop: `initEntry` copies the code with its padding and optimises it. */
    constructor (h: Host, f: Frame, call: Client, pooled: bool, trace: Trace)
      ensures this.h == h && this.f == f && this.call == call && this.pooled == pooled
      ensures Image() == Load(f.code, pooled)
      ensures fresh(stack) && At(Initial(f.msg, trace))
    {
      var a := CopyCode(f.code, PADDING);
      var dests := BuildTable(a, f.code);
      var pool: seq<Word> := [];
      if pooled {
        DestsExact(f.code);
        pool := FirstPass(a, |f.code|, dests, Prepared(f.code));
      }
      this.h, this.f, this.call, this.pooled := h, f, call, pooled;
      code, jumpDests, this.pool := a[..], dests, pool;
      stack := new Word[1024];
      mem, returnData, output, this.trace := [], [], [], trace;
      pc, sp, spp := 0, 1024, 1024;
      ioGas, memoryGas, fixedGas, callGas, stipends := f.msg.gas, 0, 0, 0, 0;
    }

    /** What `exec` promises of a finished frame. */
    ghost predicate Ended(sig: Signal, e: End)
      reads this
    {
      match e
      case Done(reverted, out, s) => sig == Stopped(reverted) && output == out && ioGas == s.gas && trace == s.trace
      case Thrown(error, t) => sig == Raised(error) && trace == t
    }

    /** One instruction, nested executions included. */
    method Turn(ghost st: State) returns (sig: Signal)
      requires Suitable(h, pooled) && Ready(f, pooled, st) && At(st)
      requires Image() == Load(f.code, pooled) && call == ClientOf(h, f.rev, pooled)
      modifies this, stack
      ensures Agrees(sig, Advance(h, f, pooled, st))
    {
      DestsExact(f.code);
      ReadyFetchable(f, pooled, st);
      sig := InterpretOne(st);
      AdvanceIsAnswered(h, f, pooled, st);
    }

    /** The loop of `exec`: the frame ends as the specification says. */
    method Interpret(ghost start: State) returns (sig: Signal)
      requires Suitable(h, pooled) && Ready(f, pooled, start) && At(start)
      requires Image() == Load(f.code, pooled) && call == ClientOf(h, f.rev, pooled)
      modifies this, stack
      ensures Ended(sig, Run(h, f, pooled, start))
    {
      ghost var st := start;
      sig := Continue;
      while sig == Continue
        invariant sig == Continue ==> Ready(f, pooled, st) && At(st) && Run(h, f, pooled, st) == Run(h, f, pooled, start)
        invariant sig != Continue ==> Ended(sig, Run(h, f, pooled, start))
        decreases if sig == Continue then 1 + st.gas else 0
      {
        sig := Turn(st);
        ghost var r := Advance(h, f, pooled, st);
        if r.Next? { st := r.st; }
      }
    }
  }

  /** `copyCode`: a copy that can be modified, with zero bytes behind it. */
  method CopyCode(code: Bytes, extra: nat) returns (a: array<Byte>)
    ensures fresh(a) && a[..] == code + Zeros(extra)
  {
    a := new Byte[|code| + extra](i requires 0 <= i => if i < |code| then code[i] else 0);
  }

  function ClientOf(h: Host, rev: Revision, pooled: bool): (call: Client)
    requires Suitable(h, pooled)
    ensures Fair(call)
  {
    (t: Trace, m: Message) =>
      if m.gas <= INT63_MAX then Nested(h, rev, pooled, t, m) else (Hosts.Result(Refused, m.gas, [], m.sender), t)
  }

  lemma AdvanceIsAnswered(h: Host, f: Frame, pooled: bool, st: State)
    requires Suitable(h, pooled) && Ready(f, pooled, st) && Fetchable(Load(f.code, pooled), st.pc)
    requires Deliverable(Step(h, f, Load(f.code, pooled), st))
    ensures Advance(h, f, pooled, st) == Answered(ClientOf(h, f.rev, pooled), Step(h, f, Load(f.code, pooled), st))
  {
    NextReady(h, f, pooled, st);
  }

  /** The interpreter computes `Execute`: on every code, message and suitable host, with or without
      the optimiser, without a stack, memory or code access out of bounds and without wrap-around. */
  method Interpreted(h: Host, rev: Revision, pooled: bool, trace: Trace, msg: Message, code: Bytes)
    returns (res: Hosts.Result, after: Trace)
    requires Suitable(h, pooled) && Runnable(code, pooled) && msg.gas <= INT63_MAX
    ensures (res, after) == Execute(h, rev, pooled, trace, msg, code)
  {
    var vm := new VM(h, Frame(rev, msg, code), ClientOf(h, rev, pooled), pooled, trace);
    InitialReady(rev, msg, code, pooled, trace);
    var sig := vm.Interpret(Initial(msg, trace));
    after := vm.trace;
    match sig
    case Stopped(reverted) =>
      res := Hosts.Result(if reverted then Reverted else Success, vm.ioGas, vm.output, 0);
    case Raised(error) =>
      res := Hosts.Result(Failed(error), 0, [], 0);
  }
}
