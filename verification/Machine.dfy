/** What the interpreter sees of the outside world: messages, results and the `bvmc` host.

    The world is the trace of everything the interpreter has asked of it so far.  Each query of
    the host is an arbitrary function of that trace, so any deterministic stateful host is covered.
 */
module Hosts {
  import opened Words

  datatype Option<+T> = None | Some(value: T)

  datatype Error =
    | OutOfGas
    | StackUnderflow
    | StackOverflow
    | BadInstruction
    | InvalidInstruction
    | BadJumpDestination
    | StaticModeViolation
    | InvalidMemoryAccess

  datatype CallKind = Call | DelegateCall | CallCode | Create | Create2

  datatype Message = Message(
    kind: CallKind,
    isStatic: bool,
    depth: nat,
    gas: nat,
    destination: Address,
    sender: Address,
    input: Bytes,
    value: Word,
    salt: Word)

  datatype Status = Success | Reverted | Failed(error: Error) | Refused

  datatype Result = Result(status: Status, gasLeft: nat, output: Bytes, created: Address)

  /** The host operations that change state, and the two ends of a nested execution. */
  datatype Event =
    | SetStorage(account: Address, key: Word, value: Word)
    | EmitLog(account: Address, data: Bytes, topics: seq<Word>)
    | Destruct(account: Address, beneficiary: Address)
    | Send(msg: Message)
    | Receive(status: Status)

  type Trace = seq<Event>

  datatype TxContext = TxContext(
    gasPrice: Word,
    origin: Address,
    coinbase: Address,
    number: nat,
    timestamp: Word,
    gasLimit: Word,
    difficulty: Word,
    chainId: Word)

  datatype StorageStatus = Added | Modified | Deleted | Unchanged | ModifiedAgain

  /** How the client answers a message: at once (a precompile, an empty account, a failed
      transfer) or by running `code` with `receiver` as the executing account. */
  datatype Dispatch = Answer(result: Result) | Enter(code: Bytes, receiver: Address)

  datatype Host = Host(
    tx: TxContext,
    keccak: Bytes -> Word,
    blockHash: (Trace, nat) -> Word,
    balance: (Trace, Address) -> Word,
    accountExists: (Trace, Address) -> bool,
    code: (Trace, Address) -> Bytes,
    codeHash: (Trace, Address) -> Word,
    storage: (Trace, Address, Word) -> Word,
    storageStatus: (Trace, Address, Word, Word) -> StorageStatus,
    dispatch: (Trace, Message) -> Dispatch,
    settle: (Trace, Message, Result) -> Result)

  /** A host never hands back more gas than it was given: not when it answers by itself, and not
      when it settles a finished nested execution. */
  ghost predicate Honest(h: Host)
  {
    && (forall t: Trace, m: Message :: h.dispatch(t, m).Answer? ==> h.dispatch(t, m).result.gasLeft <= m.gas)
    && (forall t: Trace, m: Message, r: Result :: h.settle(t, m, r).gasLeft <= r.gasLeft)
  }

  /** The message under which nested code runs (EvmCHost::call, BVMC::exec). */
  function CalleeMessage(msg: Message, receiver: Address): (m: Message)
  {
    var creates := msg.kind.Create? || msg.kind.Create2?;
    Message(if creates then Create else Call, msg.isStatic, msg.depth, msg.gas, receiver, msg.sender,
            if creates then [] else msg.input, msg.value, 0)
  }
}

/** One instruction of the interpreter as a function on machine states.

    The stack is a sequence with its top first.  Operands are read before any write, so the
    aliasing of `m_SP` and `m_SPP` in the sources is invisible here; the class in `VM.dfy` keeps
    the two pointers and is proved equal to this module.
 */
module Machine {
  import opened Words
  import opened Instructions
  import opened Hosts
  import A = Alu

  /** The machine state and an account of the gas already paid, by cause: `memoryGas` for growing
      the memory, `fixedGas` for instructions, `callGas` for what nested executions consumed;
      `stipends` is what was lent to them without charge. */
  datatype State = State(
    pc: nat,
    stack: seq<Word>,
    mem: Bytes,
    gas: nat,
    returnData: Bytes,
    trace: Trace,
    memoryGas: nat,
    fixedGas: nat,
    callGas: nat,
    stipends: nat)

  /** Revision, message and code of the running frame. */
  datatype Frame = Frame(rev: Revision, msg: Message, code: Bytes)

  /** `m_code`, `m_jumpDests` and `m_pool` as `optimize` leaves them; `pooled` is EVM_OPTIMIZE. */
  datatype Program = Program(code: Bytes, dests: seq<nat>, pool: seq<Word>, pooled: bool)

  /** Where the answer of a nested execution goes. */
  datatype Slot = CallSlot(offset: nat, size: nat) | CreateSlot

  datatype StepResult =
    | Next(st: State)
    | Halt(reverted: bool, output: Bytes, st: State)
    | Fault(error: Error, trace: Trace)
    | CallOut(msg: Message, st: State, slot: Slot)

  const STACK_LIMIT: nat := 1024
  const DEPTH_LIMIT: nat := 1024
  const CALL_STIPEND: nat := 2300
  const VALUE_TRANSFER_GAS: nat := 9000
  const NEW_ACCOUNT_GAS: nat := 25000
  const CALL_SELF_GAS: nat := 40
  const CREATE_GAS: nat := 32000

  // ---- Metering ----

  /** `n * n` by summing odd numbers, which keeps the solver away from products of unknowns. */
  function Square(n: nat): (r: nat)
  {
    if n == 0 then 0 else Square(n - 1) + 2 * n - 1
  }

  lemma {:induction false} SquareIsProduct(n: nat)
    ensures Square(n) == n * n
  {
    if n > 0 {
      SquareIsProduct(n - 1);
      MulDistrib(n - 1, 1, n);
      MulDistrib(n, 1, n - 1);
      MulComm(n, n - 1);
    }
  }

  /** Yellow Paper appendix H.1: `3 s + s^2 / 512` for `s` words. */
  function GasForMem(size: nat): (g: nat)
  {
    3 * (size / 32) + Square(size / 32) / 512
  }

  function RoundUp32(n: nat): (r: nat)
  {
    (n + 31) / 32 * 32
  }

  /** The price of `w` words of memory is three units a word and the whole 512th parts of `w * w`. */
  predicate Priced(w: nat, g: nat)
  {
    g >= 3 * w && 512 * (g - 3 * w) <= w * w < 512 * (g - 3 * w) + 512
  }

  lemma GasForMemExact(w: nat)
    ensures Priced(w, GasForMem(32 * w))
  {
    SquareIsProduct(w);
  }

  lemma RoundUp32Facts(n: nat)
    ensures n <= RoundUp32(n) < n + 32 && RoundUp32(n) % 32 == 0
  {
  }

  lemma GasForMemMonotone(a: nat, b: nat)
    requires a <= b
    ensures GasForMem(a) <= GasForMem(b)
  {
    SquareMonotone(a / 32, b / 32);
  }

  lemma {:induction false} SquareMonotone(s: nat, t: nat)
    requires s <= t
    ensures Square(s) <= Square(t)
    decreases t
  {
    if s < t { SquareMonotone(s, t - 1); }
  }

  function Charge(st: State, cost: nat): (r: Option<State>)
  {
    if st.gas < cost then None
    else Some(st.(gas := st.gas - cost, fixedGas := st.fixedGas + cost))
  }

  /** `memNeed`: the first byte past an access, or nothing when that leaves 63 bits. */
  function MemNeed(offset: Word, size: Word): (r: Option<nat>)
  {
    if size == 0 then Some(0) else if offset + size > INT63_MAX then None else Some(offset + size)
  }

  /** A price per started word of 32 bytes. */
  function WordGas(size: nat, price: nat): (g: nat)
  {
    (size + 31) / 32 * price
  }

  function LogBase(topics: nat, size: nat): (g: nat)
  {
    375 + 375 * topics + 8 * size
  }

  function GrowthGas(current: nat, size: nat): (g: nat)
  {
    if size > current then
      GasForMemMonotone(current, size);
      GasForMem(size) - GasForMem(current)
    else 0
  }

  /** `updateMem` followed by `updateIOGas`: charge `base`, the copied words and the growth of the
      memory to `need` bytes rounded up to whole words, then zero-fill the new words. */
  function Expand(st: State, need: nat, base: nat, copied: nat): (r: Option<State>)
  {
    var size := RoundUp32(need);
    var growth := GrowthGas(|st.mem|, size);
    var fixed := base + WordGas(copied, 3);
    if size > |st.mem| && GasForMem(size) > INT63_MAX then None
    else if st.gas < fixed + growth then None
    else Some(st.(gas := st.gas - (fixed + growth),
                  mem := if size > |st.mem| then st.mem + Zeros(size - |st.mem|) else st.mem,
                  memoryGas := st.memoryGas + growth, fixedGas := st.fixedGas + fixed))
  }

  function Splice(mem: Bytes, offset: nat, data: Bytes): (r: Bytes)
    requires offset + |data| <= |mem|
    ensures |r| == |mem|
  {
    mem[..offset] + data + mem[offset + |data|..]
  }

  /** A slice of memory; an empty one whatever its offset. */
  function Slice(mem: Bytes, offset: nat, size: nat): (r: Bytes)
    requires size > 0 ==> offset + size <= |mem|
    ensures |r| == size
  {
    if size == 0 then [] else mem[offset..offset + size]
  }

  // ---- Operand-only instructions ----

  /** Values by the Yellow Paper's definitions; the object computes them as the sources do. */
  function AluValue(op: Byte, s: seq<Word>): (v: Word)
    requires KindOf(op).Alu? && |s| >= KindOf(op).arity
  {
    if op == 0x01 then A.Add(s[0], s[1])
    else if op == 0x02 then A.Mul(s[0], s[1])
    else if op == 0x03 then A.Sub(s[0], s[1])
    else if op == 0x04 then A.Div(s[0], s[1])
    else if op == 0x05 then A.SignedQuotient(s[0], s[1])
    else if op == 0x06 then A.Mod(s[0], s[1])
    else if op == 0x07 then A.SignedRemainder(s[0], s[1])
    else if op == 0x08 then A.AddMod(s[0], s[1], s[2])
    else if op == 0x09 then A.MulMod(s[0], s[1], s[2])
    else if op == 0x0a then A.Exp(s[0], s[1])
    else if op == 0x0b then A.SignExtension(s[0], s[1])
    else if op == 0x10 then Truth(s[0] < s[1])
    else if op == 0x11 then Truth(s[0] > s[1])
    else if op == 0x12 then Truth(A.SignedLess(s[0], s[1]))
    else if op == 0x13 then Truth(A.SignedLess(s[1], s[0]))
    else if op == 0x14 then Truth(s[0] == s[1])
    else if op == 0x15 then Truth(s[0] == 0)
    else if op == 0x16 then BitWord(s[0], s[1]); A.BitAnd(s[0], s[1])
    else if op == 0x17 then BitWord(s[0], s[1]); A.BitOr(s[0], s[1])
    else if op == 0x18 then BitWord(s[0], s[1]); A.BitXor(s[0], s[1])
    else if op == 0x19 then TWO_256 - 1 - s[0]
    else if op == 0x1a then A.ByteAt(s[0], s[1])
    else if op == 0x1b then A.Shl(s[0], s[1])
    else if op == 0x1c then A.Shr(s[0], s[1])
    else A.ArithmeticShift(s[0], s[1])
  }

  function Truth(b: bool): (w: Word)
  {
    if b then 1 else 0
  }

  lemma BitWord(a: Word, b: Word)
    ensures A.BitAnd(a, b) < TWO_256 && A.BitOr(a, b) < TWO_256 && A.BitXor(a, b) < TWO_256
  {
    Pow2Values();
    A.BitOpsBound(a, b, 256);
  }

  /** EXP pays per byte of its exponent; every other instruction pays its row. */
  function AluCharge(rev: Revision, op: Byte, s: seq<Word>, rowCost: nat): (c: nat)
    requires KindOf(op).Alu? && |s| >= KindOf(op).arity
  {
    if op == EXP then 10 + (if rev >= SPURIOUS_DRAGON then 50 else 10) * A.ByteLength(s[1]) else rowCost
  }

  function StepAlu(f: Frame, st: State, op: Byte, cost: nat): (r: StepResult)
    requires KindOf(op).Alu? && |st.stack| >= KindOf(op).arity
    ensures !r.CallOut? && !r.Halt?
    ensures r.Next? ==> r.st.pc == st.pc + 1
  {
    match Charge(st, AluCharge(f.rev, op, st.stack, cost))
    case None => Fault(OutOfGas, st.trace)
    case Some(s) => Next(s.(pc := s.pc + 1, stack := [AluValue(op, st.stack)] + st.stack[KindOf(op).arity..]))
  }

  function EnvValue(h: Host, f: Frame, st: State, op: Byte): (v: Word)
    requires KindOf(op).Env?
  {
    if op == 0x30 then f.msg.destination
    else if op == 0x32 then h.tx.origin
    else if op == 0x33 then f.msg.sender
    else if op == 0x34 then f.msg.value
    else if op == 0x36 then Wrap64(|f.msg.input|)
    else if op == 0x38 then Wrap64(|f.code|)
    else if op == 0x3a then h.tx.gasPrice
    else if op == 0x3d then Wrap64(|st.returnData|)
    else if op == 0x41 then h.tx.coinbase
    else if op == 0x42 then h.tx.timestamp
    else if op == 0x43 then Wrap64(h.tx.number)
    else if op == 0x44 then h.tx.difficulty
    else if op == 0x45 then h.tx.gasLimit
    else if op == 0x46 then h.tx.chainId
    else if op == 0x47 then h.balance(st.trace, f.msg.destination)
    else if op == 0x58 then Wrap64(st.pc)
    else if op == 0x59 then Wrap64(|st.mem|)
    else Wrap64(st.gas)
  }

  function StepEnv(h: Host, f: Frame, st: State, op: Byte, cost: nat): (r: StepResult)
    requires KindOf(op).Env?
    ensures !r.CallOut? && !r.Halt?
    ensures r.Next? ==> r.st.pc == st.pc + 1
  {
    match Charge(st, cost)
    case None => Fault(OutOfGas, st.trace)
    case Some(s) => Next(s.(pc := s.pc + 1, stack := [EnvValue(h, f, s, op)] + s.stack))
  }

  function QueryValue(h: Host, f: Frame, trace: Trace, op: Byte, x: Word): (v: Word)
    requires KindOf(op).Query?
  {
    if op == 0x31 then h.balance(trace, ToAddress(x))
    else if op == 0x35 then BytesToWord(Padded(f.msg.input, x, 32))
    else if op == 0x3b then Wrap64(|h.code(trace, ToAddress(x))|)
    else if op == 0x3f then h.codeHash(trace, ToAddress(x))
    else if op == 0x40 then
      var number := h.tx.number;
      if x < number && x >= (if number > 256 then number else 256) - 256 then h.blockHash(trace, x) else 0
    else h.storage(trace, f.msg.destination, x)
  }

  function StepQuery(h: Host, f: Frame, st: State, op: Byte, cost: nat): (r: StepResult)
    requires KindOf(op).Query? && |st.stack| >= 1
    ensures !r.CallOut? && !r.Halt?
    ensures r.Next? ==> r.st.pc == st.pc + 1
  {
    match Charge(st, cost)
    case None => Fault(OutOfGas, st.trace)
    case Some(s) =>
      Next(s.(pc := s.pc + 1, stack := [QueryValue(h, f, s.trace, op, st.stack[0])] + st.stack[1..]))
  }

  function StepStack(st: State, op: Byte, cost: nat): (r: StepResult)
    requires var k := KindOf(op);
             || (k.Pop? && |st.stack| >= 1) || k.Jumpdest?
             || ((k.Dup? || k.Swap?) && |st.stack| >= k.depth + 1)
    ensures !r.CallOut? && !r.Halt?
    ensures r.Next? ==> r.st.pc == st.pc + 1
  {
    match Charge(st, cost)
    case None => Fault(OutOfGas, st.trace)
    case Some(s) =>
      var stack := match KindOf(op)
        case Pop => st.stack[1..]
        case Dup(n) => [st.stack[n]] + st.stack
        case Swap(n) => st.stack[0 := st.stack[n]][n := st.stack[0]]
        case _ => st.stack;
      Next(s.(pc := s.pc + 1, stack := stack))
  }

  // ---- Memory ----

  /** MLOAD, MSTORE and MSTORE8 address memory through a 32-bit cast of the offset. */
  function Cast32(offset: Word): (o: nat)
    ensures o <= offset
  {
    Wrap32(offset)
  }

  function StepMload(st: State, cost: nat): (r: StepResult)
    requires |st.stack| >= 1
    ensures !r.CallOut? && !r.Halt?
    ensures r.Next? ==> r.st.pc == st.pc + 1
  {
    var offset := st.stack[0];
    if offset > INT63_MAX then Fault(OutOfGas, st.trace)
    else match Expand(st, offset + 32, cost, 0)
      case None => Fault(OutOfGas, st.trace)
      case Some(s) =>
        var at := Cast32(offset);
        Next(s.(pc := s.pc + 1, stack := [BytesToWord(s.mem[at..at + 32])] + st.stack[1..]))
  }

  function StepMstore(st: State, op: Byte, cost: nat): (r: StepResult)
    requires KindOf(op).Mstore? && |st.stack| >= 2
    ensures !r.CallOut? && !r.Halt?
    ensures r.Next? ==> r.st.pc == st.pc + 1
  {
    var value := st.stack[1];
    StepStore(st, if op == 0x52 then WordToBytes(value) else [value % 256], cost)
  }

  function StepStore(st: State, data: Bytes, cost: nat): (r: StepResult)
    requires |st.stack| >= 2
    ensures !r.CallOut? && !r.Halt?
    ensures r.Next? ==> r.st.pc == st.pc + 1
  {
    var offset := st.stack[0];
    if offset > INT63_MAX then Fault(OutOfGas, st.trace)
    else match Expand(st, offset + |data|, cost, 0)
      case None => Fault(OutOfGas, st.trace)
      case Some(s) =>
        Next(s.(pc := s.pc + 1, stack := st.stack[2..], mem := Splice(s.mem, Cast32(offset), data)))
  }

  function StepSha3(h: Host, st: State): (r: StepResult)
    requires |st.stack| >= 2
    ensures !r.CallOut? && !r.Halt?
    ensures r.Next? ==> r.st.pc == st.pc + 1
  {
    var offset, size := st.stack[0], st.stack[1];
    var base := 30 + WordGas(size, 6);
    if base > INT63_MAX then Fault(OutOfGas, st.trace)
    else match MemNeed(offset, size)
      case None => Fault(OutOfGas, st.trace)
      case Some(need) =>
        match Expand(st, need, base, 0)
        case None => Fault(OutOfGas, st.trace)
        case Some(s) =>
          Next(s.(pc := s.pc + 1, stack := [h.keccak(Slice(s.mem, offset, size))] + st.stack[2..]))
  }

  /** Source, destination offset, source index and size of a copy instruction. */
  datatype CopyArgs = CopyArgs(data: Bytes, offset: Word, index: Word, size: Word, arity: nat)

  /** EXTCODECOPY limits its code offset to the largest `size_t`. */
  function Capped64(x: Word): (r: Word)
  {
    if x > TWO_64 - 1 then TWO_64 - 1 else x
  }

  function CopyOf(h: Host, f: Frame, st: State, op: Byte): (a: CopyArgs)
    requires KindOf(op).Copy? && |st.stack| >= (if op == EXTCODECOPY then 4 else 3)
    ensures a.arity <= |st.stack|
  {
    if op == EXTCODECOPY then
      CopyArgs(h.code(st.trace, ToAddress(st.stack[0])), st.stack[1], Capped64(st.stack[2]), st.stack[3], 4)
    else
      CopyArgs(if op == 0x37 then f.msg.input else if op == 0x39 then f.code else st.returnData,
               st.stack[0], st.stack[1], st.stack[2], 3)
  }

  function StepCopy(h: Host, f: Frame, st: State, op: Byte, cost: nat): (r: StepResult)
    requires KindOf(op).Copy? && |st.stack| >= (if op == EXTCODECOPY then 4 else 3)
    ensures !r.CallOut? && !r.Halt?
    ensures r.Next? ==> r.st.pc == st.pc + 1
  {
    var a := CopyOf(h, f, st, op);
    if op == RETURNDATACOPY && |st.returnData| < a.index + a.size then Fault(InvalidMemoryAccess, st.trace)
    else CopyIn(st, a, cost)
  }

  function CopyIn(st: State, a: CopyArgs, cost: nat): (r: StepResult)
    requires a.arity <= |st.stack|
    ensures !r.CallOut? && !r.Halt?
    ensures r.Next? ==> r.st.pc == st.pc + 1
  {
    if a.size > INT63_MAX then Fault(OutOfGas, st.trace)
    else match MemNeed(a.offset, a.size)
      case None => Fault(OutOfGas, st.trace)
      case Some(need) =>
        match Expand(st, need, cost, a.size)
        case None => Fault(OutOfGas, st.trace)
        case Some(s) =>
          var mem := if a.size == 0 then s.mem else Splice(s.mem, a.offset, Padded(a.data, a.index, a.size));
          Next(s.(pc := s.pc + 1, stack := st.stack[a.arity..], mem := mem))
  }

  // ---- State changes ----

  function StepLog(f: Frame, st: State, n: nat): (r: StepResult)
    requires |st.stack| >= n + 2
    ensures !r.CallOut? && !r.Halt?
    ensures r.Next? ==> r.st.pc == st.pc + 1
  {
    var offset, size := st.stack[0], st.stack[1];
    var base := LogBase(n, size);
    if f.msg.isStatic then Fault(StaticModeViolation, st.trace)
    else if base > INT63_MAX then Fault(OutOfGas, st.trace)
    else match MemNeed(offset, size)
      case None => Fault(OutOfGas, st.trace)
      case Some(need) =>
        match Expand(st, need, base, 0)
        case None => Fault(OutOfGas, st.trace)
        case Some(s) =>
          var e := EmitLog(f.msg.destination, Slice(s.mem, offset, size), st.stack[2..n + 2]);
          Next(s.(pc := s.pc + 1, stack := st.stack[n + 2..], trace := st.trace + [e]))
  }

  function SstoreGas(rev: Revision, status: StorageStatus): (g: nat)
  {
    match status
    case Added => 20000
    case Modified => 5000
    case Deleted => 5000
    case _ => if rev == CONSTANTINOPLE || rev >= ISTANBUL then Cost(rev, SLOAD) else 5000
  }

  /** SSTORE writes through the host before it pays. */
  function StepSstore(h: Host, f: Frame, st: State): (r: StepResult)
    requires |st.stack| >= 2
    ensures !r.CallOut? && !r.Halt?
    ensures r.Next? ==> r.st.pc == st.pc + 1
  {
    var key, value := st.stack[0], st.stack[1];
    if f.msg.isStatic then Fault(StaticModeViolation, st.trace)
    else if f.rev >= ISTANBUL && st.gas <= CALL_STIPEND then Fault(OutOfGas, st.trace)
    else
      var status := h.storageStatus(st.trace, f.msg.destination, key, value);
      var trace := st.trace + [SetStorage(f.msg.destination, key, value)];
      match Charge(st, SstoreGas(f.rev, status))
      case None => Fault(OutOfGas, trace)
      case Some(s) => Next(s.(pc := s.pc + 1, stack := st.stack[2..], trace := trace))
  }

  // ---- Halting ----

  function StepStop(st: State, cost: nat): (r: StepResult)
    ensures r.Halt? || r.Fault?
  {
    match Charge(st, cost)
    case None => Fault(OutOfGas, st.trace)
    case Some(s) => Halt(false, [], s)
  }

  function StepReturn(st: State, op: Byte, cost: nat): (r: StepResult)
    requires |st.stack| >= 2
    ensures r.Halt? || r.Fault?
  {
    var offset, size := st.stack[0], st.stack[1];
    match MemNeed(offset, size)
    case None => Fault(OutOfGas, st.trace)
    case Some(need) =>
      match Expand(st, need, cost, 0)
      case None => Fault(OutOfGas, st.trace)
      case Some(s) => Halt(op == REVERT, Slice(s.mem, offset, size), s.(stack := st.stack[2..]))
  }

  function StepSelfDestruct(h: Host, f: Frame, st: State, cost: nat): (r: StepResult)
    requires |st.stack| >= 1
    ensures r.Halt? || r.Fault?
  {
    if f.msg.isStatic then Fault(StaticModeViolation, st.trace)
    else match Charge(st, cost)
      case None => Fault(OutOfGas, st.trace)
      case Some(s) =>
        var to := ToAddress(st.stack[0]);
        var surcharge :=
          if f.rev >= TANGERINE_WHISTLE
             && (f.rev == TANGERINE_WHISTLE || h.balance(st.trace, f.msg.destination) > 0)
             && !h.accountExists(st.trace, to)
          then NEW_ACCOUNT_GAS else 0;
        match Charge(s, surcharge)
        case None => Fault(OutOfGas, st.trace)
        case Some(s') =>
          Halt(false, [], s'.(stack := st.stack[1..], trace := st.trace + [Destruct(f.msg.destination, to)]))
  }

  // ---- Calls ----

  datatype CallArgs = CallArgs(
    gas: Word, to: Address, value: Word, inOffset: Word, inSize: Word, outOffset: Word, outSize: Word)

  function ArgsOf(op: Byte, s: seq<Word>): (a: CallArgs)
    requires |s| >= CallArity(op)
  {
    var i := CallArity(op) - 4;
    CallArgs(s[0], ToAddress(s[1]), if HasValueArg(op) then s[2] else 0, s[i], s[i + 1], s[i + 2], s[i + 3])
  }

  /** What a call costs before memory and before the gas it passes on. */
  function CallBase(h: Host, f: Frame, trace: Trace, op: Byte, cost: nat, a: CallArgs): (g: nat)
  {
    (if f.rev >= BERLIN && f.msg.destination == a.to then CALL_SELF_GAS else cost)
    + (if op == CALL && (a.value > 0 || f.rev < SPURIOUS_DRAGON) && !h.accountExists(trace, a.to)
       then NEW_ACCOUNT_GAS else 0)
    + (if a.value > 0 then VALUE_TRANSFER_GAS else 0)
  }

  function KindOfCall(op: Byte): (k: CallKind)
  {
    if op == CALLCODE then CallCode else if op == DELEGATECALL then DelegateCall else Call
  }

  /** The gas offered to the callee: all but one 64th from Tangerine Whistle on (EIP-150). */
  function Offered(rev: Revision, wanted: nat, gas: nat): (g: nat)
  {
    if rev >= TANGERINE_WHISTLE && wanted > gas - gas / 64 then gas - gas / 64 else wanted
  }

  function CallMessage(f: Frame, op: Byte, a: CallArgs, gas: nat, input: Bytes): (m: Message)
  {
    Message(KindOfCall(op), op == STATICCALL || f.msg.isStatic, f.msg.depth + 1,
            gas + (if a.value > 0 then CALL_STIPEND else 0),
            a.to,
            if op == DELEGATECALL then f.msg.sender else f.msg.destination,
            input,
            if op == DELEGATECALL then f.msg.value else a.value,
            0)
  }

  function MaxNeed(a: CallArgs): (r: Option<nat>)
  {
    match (MemNeed(a.inOffset, a.inSize), MemNeed(a.outOffset, a.outSize))
    case (Some(x), Some(y)) => Some(if x < y then y else x)
    case _ => None
  }

  function StepCall(h: Host, f: Frame, st: State, op: Byte, cost: nat): (r: StepResult)
    requires KindOf(op).MessageCall? && |st.stack| >= CallArity(op)
    ensures r.Next? ==> r.st.pc == st.pc + 1
    ensures r.CallOut? ==> r.st.pc == st.pc
  {
    var a := ArgsOf(op, st.stack);
    if op == CALL && f.msg.isStatic && a.value != 0 then Fault(StaticModeViolation, st.trace)
    else match MaxNeed(a)
      case None => Fault(OutOfGas, st.trace)
      case Some(need) =>
        match Expand(st, need, CallBase(h, f, st.trace, op, cost, a), 0)
        case None => Fault(OutOfGas, st.trace)
        case Some(s) => SendCall(h, f, s.(returnData := []), op, a)
  }

  /** `caseCallSetup` from the call gas on: `st` has paid the fixed charges and the memory. */
  function SendCall(h: Host, f: Frame, st: State, op: Byte, a: CallArgs): (r: StepResult)
    requires |st.stack| >= CallArity(op)
    requires a.inSize > 0 ==> a.inOffset + a.inSize <= |st.mem|
    ensures r.Next? ==> r.st.pc == st.pc + 1
    ensures r.CallOut? ==> r.st.pc == st.pc
  {
    var gas := Offered(f.rev, a.gas, st.gas);
    if gas > INT63_MAX || st.gas < gas then Fault(OutOfGas, st.trace)
    else
      var msg := CallMessage(f, op, a, gas, Slice(st.mem, a.inOffset, a.inSize));
      var rest := st.(gas := st.gas - gas, stack := st.stack[CallArity(op)..]);
      var affordable := a.value == 0 || h.balance(st.trace, f.msg.destination) >= a.value;
      if affordable && f.msg.depth < DEPTH_LIMIT then CallOut(msg, rest, CallSlot(a.outOffset, a.outSize))
      else Next(Refuse(rest, msg.gas, msg.gas - gas))
  }

  /** A refused call pushes 0 and takes back everything the message would have carried. */
  function Refuse(st: State, gas: nat, stipend: nat): (r: State)
  {
    st.(pc := st.pc + 1, stack := [0] + st.stack, gas := st.gas + gas,
        stipends := st.stipends + stipend)
  }

  function CreateBase(op: Byte, initSize: Word): (g: Option<nat>)
  {
    if op == CREATE then Some(CREATE_GAS)
    else
      var hashing := WordGas(initSize, 6);
      if hashing > INT63_MAX then None else Some(CREATE_GAS + hashing)
  }

  function StepCreate(h: Host, f: Frame, st: State, op: Byte): (r: StepResult)
    requires KindOf(op).CreateAccount? && |st.stack| >= CreateArity(op)
    ensures r.Next? ==> r.st.pc == st.pc + 1
    ensures r.CallOut? ==> r.st.pc == st.pc
  {
    var endowment, offset, size := st.stack[0], st.stack[1], st.stack[2];
    if f.msg.isStatic then Fault(StaticModeViolation, st.trace)
    else match (CreateBase(op, size), MemNeed(offset, size))
      case (Some(base), Some(need)) =>
        (match Expand(st, need, base, 0)
         case None => Fault(OutOfGas, st.trace)
         case Some(s) => SendCreate(h, f, s.(returnData := []), op, endowment, offset, size))
      case _ => Fault(OutOfGas, st.trace)
  }

  function CreateMessage(f: Frame, op: Byte, endowment: Word, gas: nat, init: Bytes, salt: Word): (m: Message)
  {
    Message(if op == CREATE then Create else Create2, false, f.msg.depth + 1, gas, 0, f.msg.destination, init, endowment, salt)
  }

  function SendCreate(h: Host, f: Frame, st: State, op: Byte, endowment: Word, offset: Word, size: Word): (r: StepResult)
    requires |st.stack| >= CreateArity(op)
    requires size > 0 ==> offset + size <= |st.mem|
    ensures r.Next? ==> r.st.pc == st.pc + 1
    ensures r.CallOut? ==> r.st.pc == st.pc
  {
    var rest := st.(stack := st.stack[CreateArity(op)..]);
    if h.balance(st.trace, f.msg.destination) >= endowment && f.msg.depth < DEPTH_LIMIT then
      var gas := Offered(f.rev, st.gas, st.gas);
      var msg := CreateMessage(f, op, endowment, gas, Slice(st.mem, offset, size), if op == CREATE then 0 else st.stack[3]);
      CallOut(msg, rest.(gas := st.gas - gas), CreateSlot)
    else Next(Refuse(rest, 0, 0))
  }

  /** Back from a nested execution: push the verdict, keep the output, take back unused gas. */
  function Resume(st: State, msg: Message, slot: Slot, res: Result, trace: Trace): (r: State)
    requires slot.CallSlot? && slot.size > 0 ==> slot.offset + slot.size <= |st.mem|
    requires res.gasLeft <= msg.gas
  {
    var pushed: Word :=
      if !res.status.Success? then 0 else if slot.CallSlot? then 1 else res.created;
    var mem :=
      if slot.CallSlot? && slot.size > 0 then
        Splice(st.mem, slot.offset, res.output[..if |res.output| < slot.size then |res.output| else slot.size])
      else st.mem;
    st.(pc := st.pc + 1, stack := [pushed] + st.stack, mem := mem, gas := st.gas + res.gasLeft,
        returnData := res.output, trace := trace,
        callGas := st.callGas + (msg.gas - res.gasLeft), stipends := st.stipends + Stipend(msg, slot))
  }

  /** The part of a message's gas that the caller was not charged. */
  function Stipend(msg: Message, slot: Slot): (g: nat)
  {
    if slot.CallSlot? && !msg.kind.DelegateCall? && msg.value > 0 then CALL_STIPEND else 0
  }
}
