/** Decoded instructions of the simulated MIPS subset.

    The simulator keeps the opcode as text and re-tests it at every stage;
    here it is one closed enumeration, and each stage matches on it. Any
    opcode text outside the supported set is `Unknown`.
 */
module Isa {
  import opened Words

  datatype Opcode =
    // R-type arithmetic, logic and comparison: `op $rd, $rs, $rt`
    | Add | Addu | Sub | Subu | And | Or | Nor | Slt | Sltu
    // shifts: `op $rd, $rt, shamt`
    | Sll | Srl
    // I-type: `op $rt, $rs, imm`
    | Addi | Addiu | Andi | Ori | Slti | Sltiu
    // memory: `op $rt, imm($rs)`
    | Lw | Sw
    // control flow: `op $rs, $rt, label` and `j label`
    | Beq | Bne | J
    // any other opcode text
    | Unknown
  {
    predicate IsRType() {
      Add? || Addu? || Sub? || Subu? || And? || Or? || Nor? || Slt? || Sltu?
    }

    predicate IsShift() {
      Sll? || Srl?
    }

    predicate IsIType() {
      Addi? || Addiu? || Andi? || Ori? || Slti? || Sltiu?
    }

    predicate IsBranch() {
      Beq? || Bne?
    }

    predicate IsControlFlow() {
      IsBranch() || J?
    }

    /** The I-type opcodes whose immediate is zero-extended; every other
        I-type opcode sign-extends. */
    predicate ZeroExtends() {
      Andi? || Ori?
    }
  }

  /** The assembler text of each supported opcode. */
  function Mnemonic(op: Opcode): string {
    match op
    case Add => "add"    case Addu => "addu"  case Sub => "sub"   case Subu => "subu"
    case And => "and"    case Or => "or"      case Nor => "nor"   case Slt => "slt"
    case Sltu => "sltu"  case Sll => "sll"    case Srl => "srl"   case Addi => "addi"
    case Addiu => "addiu" case Andi => "andi" case Ori => "ori"   case Slti => "slti"
    case Sltiu => "sltiu" case Lw => "lw"     case Sw => "sw"     case Beq => "beq"
    case Bne => "bne"    case J => "j"        case Unknown => ""
  }

  /** The opcode an opcode text denotes. The comparison is exact (case
      sensitive); every other text, the empty one included, is `Unknown`. */
  function OpcodeOf(text: string): (op: Opcode)
    ensures op != Unknown ==> Mnemonic(op) == text
  {
    if text == "add" then Add else if text == "addu" then Addu
    else if text == "sub" then Sub else if text == "subu" then Subu
    else if text == "and" then And else if text == "or" then Or
    else if text == "nor" then Nor else if text == "slt" then Slt
    else if text == "sltu" then Sltu else if text == "sll" then Sll
    else if text == "srl" then Srl else if text == "addi" then Addi
    else if text == "addiu" then Addiu else if text == "andi" then Andi
    else if text == "ori" then Ori else if text == "slti" then Slti
    else if text == "sltiu" then Sltiu else if text == "lw" then Lw
    else if text == "sw" then Sw else if text == "beq" then Beq
    else if text == "bne" then Bne else if text == "j" then J
    else Unknown
  }

  /** Every opcode is recognised from its own text (`Unknown`'s is the empty
      text), so the classification loses nothing. */
  lemma OpcodeOfMnemonic(op: Opcode)
    ensures OpcodeOf(Mnemonic(op)) == op
  {
  }

  /** A register number. The loader maps the conventional names `$zero` ..
      `$ra` to 0 .. 31; an unknown name (the loader's `-1`) cannot be
      represented here. */
  type RegIndex = r: int | 0 <= r < 32

  /** One decoded instruction. Register slots an opcode does not use are 0,
      and `target` (the label operand) is empty unless the opcode is a branch
      or a jump. The source text kept for the trace is not modelled. */
  datatype Instruction = Instruction(
    op: Opcode,
    rs: RegIndex,
    rt: RegIndex,
    rd: RegIndex,
    imm: Word,
    target: string)

  /** `sll $zero, $zero, 0` is reserved as the halt instruction. */
  predicate IsHalt(ins: Instruction) {
    ins.op == Sll && ins.rs == 0 && ins.rt == 0 && ins.rd == 0 && ins.imm == 0
  }

  /** The instruction with its immediate extended for execution: zero
      extension for `andi`/`ori`, sign extension for the other I-type
      opcodes, untouched otherwise. The simulator writes this back into the
      stored instruction. */
  function ExtendImmediate(ins: Instruction): (r: Instruction)
    ensures r.op == ins.op && r.rs == ins.rs && r.rt == ins.rt && r.rd == ins.rd
    ensures r.target == ins.target
    ensures ins.op.ZeroExtends() ==> 0 <= r.imm <= 0xFFFF
    ensures ins.op.IsIType() && !ins.op.ZeroExtends() ==> -0x8000 <= Signed(r.imm) <= 0x7FFF
    ensures ins.op.IsIType() ==> r.imm % 0x10000 == ins.imm % 0x10000
    ensures !ins.op.IsIType() ==> r == ins
    ensures IsHalt(r) <==> IsHalt(ins)
  {
    if !ins.op.IsIType() then ins
    else if ins.op.ZeroExtends() then ins.(imm := ZeroExtend16(ins.imm))
    else ins.(imm := SignExtend16(ins.imm))
  }

  /** Extending an already extended instruction changes nothing, so the
      write-back into the stored program is invisible when the instruction
      runs again. */
  lemma ExtendImmediateIdempotent(ins: Instruction)
    ensures ExtendImmediate(ExtendImmediate(ins)) == ExtendImmediate(ins)
  {
    ExtendIdempotent(ins.imm);
  }
}
