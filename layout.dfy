/** Instruction layout, capacity constants and record layouts of the engine
    (tregex.h). */
module Layout {

  // Capacity constants (tregex.h:20-23)
  const InitialStackSize: int := 256
  const MaxStackSize: int := 1024 * 1024
  const MaxByteCodeSize: int := 1024
  const PoolBlockSize: int := 32

  /** Number of opcodes (tregex.h:26). */
  const OpNum: int := 13

  datatype Option<T> = None | Some(value: T)

  /** A C `char` of the target, which is signed: pattern and subject
      characters, and the values the `(char)` cast produces. */
  type SChar = c: int | -128 <= c < 128

  /** The opcodes, in the order of the header's enumeration (tregex.h:27-40, 81-85). */
  datatype Opcode =
    | Halt | Push | Repeat | Loop | LoopSet | Match | MatchSet
    | Any | Begin | End | Split | Jmp | Accept
  {
    /** The value the enumeration gives this opcode in a bytecode slot. */
    function Code(): (v: int)
      ensures 0 <= v < OpNum
    {
      match this
      case Halt => 0
      case Push => 1
      case Repeat => 2
      case Loop => 3
      case LoopSet => 4
      case Match => 5
      case MatchSet => 6
      case Any => 7
      case Begin => 8
      case End => 9
      case Split => 10
      case Jmp => 11
      case Accept => 12
    }

    /** Number of operand slots that follow the opcode slot. */
    function Arity(): (n: nat)
      ensures n <= 2
    {
      match this
      case Halt | Push | Any | Begin | End | Accept => 0
      case Repeat | Loop | Match | Jmp => 1
      case LoopSet | MatchSet | Split => 2
    }

    /** The OP_*_LEN constants (tregex.h:42-54). */
    function Length(): int
    {
      match this
      case Halt => 1
      case Push => 1
      case Repeat => 2
      case Loop => 2
      case LoopSet => 3
      case Match => 2
      case MatchSet => 3
      case Any => 1
      case Begin => 1
      case End => 1
      case Split => 3
      case Jmp => 2
      case Accept => 1
    }
  }

  /** Reads a slot value back as an opcode; `None` for a value outside the enumeration. */
  function Decode(v: int): (r: Option<Opcode>)
    ensures r.Some? <==> 0 <= v < OpNum
    ensures r.Some? ==> r.value.Code() == v
  {
    if v == 0 then Some(Halt)
    else if v == 1 then Some(Push)
    else if v == 2 then Some(Repeat)
    else if v == 3 then Some(Loop)
    else if v == 4 then Some(LoopSet)
    else if v == 5 then Some(Match)
    else if v == 6 then Some(MatchSet)
    else if v == 7 then Some(Any)
    else if v == 8 then Some(Begin)
    else if v == 9 then Some(End)
    else if v == 10 then Some(Split)
    else if v == 11 then Some(Jmp)
    else if v == 12 then Some(Accept)
    else None
  }

  /** Distinct opcodes have distinct slot values, and decoding inverts the numbering. */
  lemma CodeRoundTrip(op: Opcode, op': Opcode)
    ensures Decode(op.Code()) == Some(op)
    ensures op.Code() == op'.Code() ==> op == op'
  {
  }

  /** Each instruction is one opcode slot followed by its operand slots: the
      header's length constants agree with the operand table, so instructions
      are 1, 2 or 3 slots long. */
  lemma LengthIsOnePlusArity(op: Opcode)
    ensures op.Length() == 1 + op.Arity()
    ensures 1 <= op.Length() <= 3
  {
  }

  // Slot encoding (tregex.h:55-66): opcode in slot 0, operand A in slot 1,
  // operand B in slot 2, relative to the instruction's first slot.

  function EncodeZ(op: Opcode): (s: seq<int>)
    requires op.Arity() == 0
    ensures |s| == op.Length() && s[0] == op.Code()
  {
    [op.Code()]
  }

  function EncodeA(op: Opcode, a: int): (s: seq<int>)
    requires op.Arity() == 1
    ensures |s| == op.Length() && s[0] == op.Code() && s[1] == a
  {
    [op.Code(), a]
  }

  function EncodeAB(op: Opcode, a: int, b: int): (s: seq<int>)
    requires op.Arity() == 2
    ensures |s| == op.Length() && s[0] == op.Code() && s[1] == a && s[2] == b
  {
    [op.Code(), a, b]
  }

  /** The signed 8-bit value a C `(char)` cast produces from an integer. */
  function CharCast(x: int): (c: SChar)
    ensures (x - c) % 256 == 0
  {
    (x + 128) % 256 - 128
  }

  /** The cast changes nothing for a value that already fits a signed char. */
  lemma CharCastSmall(x: int)
    requires -128 <= x < 128
    ensures CharCast(x) == x
  {
  }

  /** Contents of one raw pool block, by the struct stored in it
      (tregex.h:106-114). Links are block indices, -1 for NULL. */
  datatype Block =
    | Raw
    | Node(parent: int, left: int, right: int, idx: int, count: int)
    | Header(root: int, top: int)

  /** Byte sizes of the two structs stored in pool blocks on a 64-bit target:
      three pointers and two ints, and two pointers (tregex.h:106-114). */
  const NodeBytes: int := 3 * 8 + 2 * 4
  const HeaderBytes: int := 2 * 8

  /** Both records fit in one pool block (tregex.h:23). */
  lemma RecordsFitInBlock()
    ensures NodeBytes <= PoolBlockSize && HeaderBytes <= PoolBlockSize
  {
  }
}
