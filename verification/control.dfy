/** The control unit: a fixed table from opcode to the nine single-cycle
    control signals. */
module Control {
  import opened Isa

  /** `aluOp` is the 2-bit ALU-operation class: 0 add-like, 1 subtract for
      branch comparison, 2 R-type function. */
  datatype ControlSignals = ControlSignals(
    regDst: bool,
    jump: bool,
    branch: bool,
    memRead: bool,
    memToReg: bool,
    aluOp: nat,
    memWrite: bool,
    aluSrc: bool,
    regWrite: bool)

  /** All signals off; what an unrecognised opcode gets. */
  const Default: ControlSignals :=
    ControlSignals(false, false, false, false, false, 0, false, false, false)

  /** The control table, one row per opcode family. The contract reads the
      same table column by column. */
  function Generate(op: Opcode): (c: ControlSignals)
    ensures c.regDst <==> op.IsRType()
    ensures c.jump <==> op == J
    ensures c.branch <==> op.IsBranch()
    ensures c.memRead <==> op == Lw
    ensures c.memToReg <==> op == Lw
    ensures c.memWrite <==> op == Sw
    ensures c.aluSrc <==> op.IsShift() || op.IsIType() || op == Lw || op == Sw
    ensures c.regWrite <==> op.IsRType() || op.IsShift() || op.IsIType() || op == Lw
    ensures c.aluOp == 2 <==> op.IsRType() || op.IsShift()
    ensures c.aluOp == 1 <==> op.IsBranch()
    ensures c.aluOp <= 2
    ensures op == Unknown ==> c == Default
  {
    if op.IsRType() then
      ControlSignals(true, false, false, false, false, 2, false, false, true)
    else if op.IsShift() then
      ControlSignals(false, false, false, false, false, 2, false, true, true)
    else if op.IsIType() then
      ControlSignals(false, false, false, false, false, 0, false, true, true)
    else if op == Lw then
      ControlSignals(false, false, false, true, true, 0, false, true, true)
    else if op == Sw then
      ControlSignals(false, false, false, false, false, 0, true, true, false)
    else if op.IsBranch() then
      ControlSignals(false, false, true, false, false, 1, false, false, false)
    else if op == J then
      ControlSignals(false, true, false, false, false, 0, false, false, false)
    else
      Default
  }
}
