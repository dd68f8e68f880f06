/** Opcodes (libbvm/Instruction.h), revisions (bvmc/include/bvmc/bvmc.h) and the instruction
    metrics tables (bvmc/lib/instructions/instruction_metrics.c), with the three rows that
    `VM::initMetrics` injects for the synthetic opcodes of the optimiser.
 */
module Instructions {
  import opened Words

  type Revision = r: nat | r <= 8

  const HOMESTEAD: Revision := 1
  const TANGERINE_WHISTLE: Revision := 2
  const SPURIOUS_DRAGON: Revision := 3
  const BYZANTIUM: Revision := 4
  const CONSTANTINOPLE: Revision := 5
  const ISTANBUL: Revision := 7
  const BERLIN: Revision := 8

  const EXP: Byte := 0x0a
  const SHL: Byte := 0x1b
  const SAR: Byte := 0x1d
  const RETURNDATASIZE: Byte := 0x3d
  const RETURNDATACOPY: Byte := 0x3e
  const EXTCODECOPY: Byte := 0x3c
  const EXTCODEHASH: Byte := 0x3f
  const CHAINID: Byte := 0x46
  const SELFBALANCE: Byte := 0x47
  const SLOAD: Byte := 0x54
  const JUMP: Byte := 0x56
  const JUMPI: Byte := 0x57
  const JUMPDEST: Byte := 0x5b
  const PUSH1: Byte := 0x60
  const PUSH32: Byte := 0x7f
  const PUSHC: Byte := 0xac
  const JUMPC: Byte := 0xad
  const JUMPCI: Byte := 0xae
  const UNDEFINED: Byte := 0xaf
  const CREATE: Byte := 0xf0
  const CALL: Byte := 0xf1
  const CALLCODE: Byte := 0xf2
  const DELEGATECALL: Byte := 0xf4
  const CREATE2: Byte := 0xf5
  const STATICCALL: Byte := 0xfa
  const REVERT: Byte := 0xfd
  const INVALID: Byte := 0xfe

  /** What a handler does with the stack; one constructor per group of `CASE` labels. */
  datatype Kind =
    | Stop
    | Alu(arity: nat)
    | Env
    | Query
    | Copy
    | Pop
    | Mload
    | Mstore
    | Sha3
    | Sstore
    | Jump
    | Jumpi
    | Jumpdest
    | Push(count: nat)
    | Dup(depth: nat)
    | Swap(depth: nat)
    | Log(topics: nat)
    | PooledPush
    | DirectJump
    | DirectJumpi
    | CreateAccount
    | MessageCall
    | Return
    | SelfDestruct
    | Bad

  function KindOf(op: Byte): (k: Kind)
  {
    if op == 0x00 then Stop
    else if op == 0x08 || op == 0x09 then Alu(3)
    else if op <= 0x0b then Alu(2)
    else if op == 0x15 || op == 0x19 then Alu(1)
    else if 0x10 <= op <= 0x1d then Alu(2)
    else if op == 0x20 then Sha3
    else if op in {0x31, 0x35, 0x3b, 0x3f, 0x40, 0x54} then Query
    else if op in {0x37, 0x39, 0x3c, 0x3e} then Copy
    else if 0x30 <= op <= 0x47 then Env
    else if op == 0x50 then Pop
    else if op == 0x51 then Mload
    else if op == 0x52 || op == 0x53 then Mstore
    else if op == 0x55 then Sstore
    else if op == JUMP then Jump
    else if op == JUMPI then Jumpi
    else if 0x58 <= op <= 0x5a then Env
    else if op == JUMPDEST then Jumpdest
    else if PUSH1 <= op <= PUSH32 then Push(op - PUSH1 + 1)
    else if 0x80 <= op <= 0x8f then Dup(op - 0x80)
    else if 0x90 <= op <= 0x9f then Swap(op - 0x90 + 1)
    else if 0xa0 <= op <= 0xa4 then Log(op - 0xa0)
    else if op == PUSHC then PooledPush
    else if op == JUMPC then DirectJump
    else if op == JUMPCI then DirectJumpi
    else if op == CREATE || op == CREATE2 then CreateAccount
    else if op in {CALL, CALLCODE, DELEGATECALL, STATICCALL} then MessageCall
    else if op == 0xf3 || op == REVERT then Return
    else if op == 0xff then SelfDestruct
    else Bad
  }

  /** The revision guards at the head of the handlers: when false they throw BadInstruction. */
  predicate Available(rev: Revision, op: Byte)
  {
    if SHL <= op <= SAR || op == EXTCODEHASH || op == CREATE2 then rev >= CONSTANTINOPLE
    else if op == RETURNDATASIZE || op == RETURNDATACOPY || op == STATICCALL || op == REVERT then rev >= BYZANTIUM
    else if op == CHAINID || op == SELFBALANCE then rev >= ISTANBUL
    else if op == DELEGATECALL then rev >= HOMESTEAD
    else true
  }

  /** `stack_height_required` of an opcode's metrics row. */
  function Required(rev: Revision, op: Byte): (n: nat)
  {
    if !Available(rev, op) then 0
    else match KindOf(op)
      case Alu(n) => n
      case Query => 1
      case Copy => if op == EXTCODECOPY then 4 else 3
      case Pop => 1
      case Mload => 1
      case Mstore => 2
      case Sha3 => 2
      case Sstore => 2
      case Jump => 1
      case DirectJump => 1
      case Jumpi => 2
      case DirectJumpi => 2
      case Dup(n) => n + 1
      case Swap(n) => n + 1
      case Log(n) => n + 2
      case CreateAccount => CreateArity(op)
      case MessageCall => CallArity(op)
      case Return => 2
      case SelfDestruct => 1
      case _ => 0
  }

  /** `stack_height_change` of an opcode's metrics row. */
  function Change(rev: Revision, op: Byte): (d: int)
  {
    if !Available(rev, op) then 0
    else match KindOf(op)
      case Alu(n) => 1 - n
      case Env => 1
      case Copy => if op == EXTCODECOPY then -4 else -3
      case Pop => -1
      case Mstore => -2
      case Sha3 => -1
      case Sstore => -2
      case Jump => -1
      case DirectJump => -1
      case Jumpi => -2
      case DirectJumpi => -2
      case Push(_) => 1
      case PooledPush => 1
      case Dup(_) => 1
      case Log(n) => -2 - n
      case CreateAccount => 1 - CreateArity(op)
      case MessageCall => 1 - CallArity(op)
      case Return => -2
      case SelfDestruct => -1
      case _ => 0
  }

  /** `gas_cost` of an opcode's metrics row. */
  function Cost(rev: Revision, op: Byte): (g: nat)
  {
    if !Available(rev, op) then 0
    else match KindOf(op)
      case Alu(_) => AluCost(op)
      case Env => if op == SELFBALANCE then 5 else 2
      case Query => QueryCost(rev, op)
      case Copy => if op != EXTCODECOPY then 3 else if rev >= TANGERINE_WHISTLE then 700 else 20
      case Pop => 2
      case Mload => 3
      case Mstore => 3
      case Sha3 => 30
      case Jump => 8
      case DirectJump => 8
      case Jumpi => 10
      case DirectJumpi => 10
      case Jumpdest => 1
      case Push(_) => 3
      case PooledPush => 3
      case Dup(_) => 3
      case Swap(_) => 3
      case Log(n) => 375 * (n + 1)
      case CreateAccount => 32000
      case MessageCall => if rev >= TANGERINE_WHISTLE then 700 else 40
      case SelfDestruct => if rev >= TANGERINE_WHISTLE then 5000 else 0
      case _ => 0
  }

  function CreateArity(op: Byte): (n: nat)
  {
    if op == CREATE then 3 else 4
  }

  function AluCost(op: Byte): (c: nat)
  {
    if op in {0x02, 0x04, 0x05, 0x06, 0x07, 0x0b} then 5
    else if op in {0x08, 0x09} then 8
    else if op == EXP then 10
    else 3
  }

  function QueryCost(rev: Revision, op: Byte): (c: nat)
  {
    if op == 0x35 then 3
    else if op == 0x40 then 20
    else if op == 0x3b then (if rev >= TANGERINE_WHISTLE then 700 else 20)
    else if op == SLOAD then (if rev >= ISTANBUL then 800 else if rev >= TANGERINE_WHISTLE then 200 else 50)
    else if rev >= ISTANBUL then 700 else if rev >= TANGERINE_WHISTLE then 400 else 20
  }

  /** CALL and CALLCODE take a value argument; DELEGATECALL and STATICCALL do not. */
  predicate HasValueArg(op: Byte)
  {
    op == CALL || op == CALLCODE
  }

  function CallArity(op: Byte): (n: nat)
  {
    if HasValueArg(op) then 7 else 6
  }

  /** Length of the immediate data that follows an opcode. */
  function PushLength(op: Byte): (n: nat)
    ensures n <= 32
  {
    if PUSH1 <= op <= PUSH32 then op - PUSH1 + 1 else 0
  }
}
