/** One clock cycle of the single-cycle datapath.

    The architectural state is the register file, the program counter and a
    sparse word memory. `Step` executes one decoded instruction against it:
    control, register read, immediate extension, branch and jump resolution
    through the label map, the ALU, the memory access, the halt check, write
    back and the PC increment, in that order and with the same early exits.
 */
module Machine {
  import opened Words
  import opened Isa
  import opened Control
  import Alu

  /** Thirty-two general-purpose registers, each one 32-bit pattern. */
  type RegFile = s: seq<Word> | |s| == 32 witness seq(32, _ => 0)

  /** Sparse memory: only written addresses are present; every other address
      reads as 0. */
  type Memory = map<Word, Word>

  /** Label name to instruction index, as the loader records it. */
  type LabelMap = map<string, nat>

  datatype State = State(regs: RegFile, pc: Word, mem: Memory)

  const GlobalPointer: Word := 0x1000_8000
  const StackPointer: Word := 0x7FFF_FFFC

  /** The state before the first cycle: every register 0 except `$gp` (28)
      and `$sp` (29), the PC at 0 and no memory written. */
  function Init(): (s: State)
    ensures s.pc == 0 && s.mem == map[]
    ensures s.regs[28] == GlobalPointer && s.regs[29] == StackPointer
    ensures forall r :: 0 <= r < 32 && r != 28 && r != 29 ==> s.regs[r] == 0
  {
    var zero: RegFile := seq(32, _ => 0);
    State(zero[28 := GlobalPointer][29 := StackPointer], 0, map[])
  }

  /** A memory read; an address never written reads as 0. */
  function Load(m: Memory, addr: Word): Word {
    if addr in m then m[addr] else 0
  }

  /** The program counter of instruction `index`: the index scaled by 4 and
      truncated to 32 bits, so it is always word aligned. */
  function TargetPc(index: nat): (pc: Word)
    ensures pc % 4 == 0
    ensures index < 0x4000_0000 ==> pc == 4 * index
  {
    WrapAligned(4 * index);
    Wrap(4 * index)
  }

  /** Wrapping keeps the remainder modulo 4, since 2^32 is a multiple of 4. */
  lemma WrapAligned(x: int)
    ensures Wrap(x) % 4 == x % 4
  {
    var q := x / Modulus;
    var w := x % Modulus;
    assert x == Modulus * q + w;
    assert w == 4 * (w / 4) + w % 4;
    assert Modulus * q == 4 * (0x4000_0000 * q);
    ModUnique(x, 4, 0x4000_0000 * q + w / 4, w % 4);
  }

  /** The sequential successor of the PC: the PC plus 4 modulo 2^32. */
  function NextPc(pc: Word): (n: Word)
    ensures pc % 4 == 0 ==> n % 4 == 0
    ensures pc + 4 < Modulus ==> n == pc + 4
    ensures pc + 4 >= Modulus ==> n == pc + 4 - Modulus
  {
    WrapAligned(pc + 4);
    Wrap(pc + 4)
  }

  /** How a cycle ended: keep going, the halt instruction retired, or a
      jump or taken branch named a label the map does not hold. */
  datatype Status = Continue | Halt | Unresolved

  /** The memory access a cycle made, as the per-cycle monitors report it. */
  datatype Access =
    | NoAccess
    | Loaded(addr: Word, value: Word)
    | Stored(addr: Word, value: Word)

  datatype StepResult = StepResult(state: State, aluOut: Word, access: Access, status: Status)

  /** The register a writing instruction writes: `rd` for R-type and shift
      instructions, `rt` for I-type instructions and loads. The shifts write
      `rd` although their RegDst signal is 0. */
  function Destination(ins: Instruction): RegIndex {
    if ins.op.IsRType() || ins.op.IsShift() then ins.rd else ins.rt
  }

  /** Control transfer to a label: to its instruction when mapped, an
      unresolved stop when not, and no change at all for an empty label. */
  function Redirect(s: State, target: string, labels: LabelMap): (r: StepResult)
    ensures r.state.regs == s.regs && r.state.mem == s.mem
    ensures r.aluOut == 0 && r.access == NoAccess && r.status != Halt
    ensures r.status == Unresolved <==> target != "" && target !in labels
    ensures r.status == Unresolved ==> r.state == s
    ensures target != "" && target in labels ==>
              r == StepResult(s.(pc := TargetPc(labels[target])), 0, NoAccess, Continue)
    ensures target == "" ==> r == StepResult(s, 0, NoAccess, Continue)
  {
    if target == "" then StepResult(s, 0, NoAccess, Continue)
    else if target in labels then StepResult(s.(pc := TargetPc(labels[target])), 0, NoAccess, Continue)
    else StepResult(s, 0, NoAccess, Unresolved)
  }

  /** The write back of a non-halting, non-control-flow instruction. `slt`
      and `sltu` write the comparison to `rd` but report the raw difference
      as the ALU output; the other writing instructions write their ALU
      output (loads: the loaded word). */
  function Writeback(regs: RegFile, x: Instruction, a: Word, b: Word, aluOut: Word, loaded: Word)
    : (r: (RegFile, Word))
  {
    if x.op == Sltu then
      (regs[x.rd := if a < b then 1 else 0], SubWrap(a, b))
    else if x.op == Slt then
      (regs[x.rd := if Signed(a) < Signed(b) then 1 else 0], SubWrap(a, b))
    else if x.op.IsRType() || x.op.IsShift() then
      (regs[x.rd := aluOut], aluOut)
    else if x.op.IsIType() then
      (regs[x.rt := aluOut], aluOut)
    else if x.op == Lw then
      (regs[x.rt := loaded], aluOut)
    else
      (regs, aluOut)
  }

  /** The cycle of an instruction that is neither a branch nor a jump. */
  function Datapath(s: State, x: Instruction): StepResult {
    var a := s.regs[x.rs];
    var b := s.regs[x.rt];
    var aluOut :=
      if x.op.IsShift() then Alu.Execute(x.op, b, x.imm)
      else Alu.Execute(x.op, a, if Generate(x.op).aluSrc then x.imm else b);
    var loaded := Load(s.mem, aluOut);
    var access :=
      if x.op == Lw then Loaded(aluOut, loaded)
      else if x.op == Sw then Stored(aluOut, b)
      else NoAccess;
    var mem := if x.op == Sw then s.mem[aluOut := b] else s.mem;
    if IsHalt(x) then
      StepResult(State(s.regs, NextPc(s.pc), mem), aluOut, access, Halt)
    else
      var (regs, out) := Writeback(s.regs, x, a, b, aluOut, loaded);
      StepResult(State(regs, NextPc(s.pc), mem), out, access, Continue)
  }

  /** One cycle. The immediate is extended first; a jump, or a branch,
      returns right after resolving the PC. */
  function Step(s: State, ins: Instruction, labels: LabelMap): (r: StepResult)
    ensures r.status == Halt <==> IsHalt(ins)
    ensures r.status == Unresolved ==> ins.op.IsControlFlow() && r.state == s
    ensures ins.op.IsControlFlow() ==>
              r.state.regs == s.regs && r.state.mem == s.mem && r.aluOut == 0 && r.access == NoAccess
    ensures !ins.op.IsControlFlow() ==> r.state.pc == NextPc(s.pc)
    ensures r.state.mem == s.mem || (ins.op == Sw && r.access.Stored? &&
              r.state.mem == s.mem[r.access.addr := r.access.value])
  {
    var x := ExtendImmediate(ins);
    var a := s.regs[x.rs];
    var b := s.regs[x.rt];
    if x.op == J then
      Redirect(s, x.target, labels)
    else if x.op.IsBranch() then
      if (x.op == Beq) == (a == b) then Redirect(s, x.target, labels)
      else StepResult(s.(pc := NextPc(s.pc)), 0, NoAccess, Continue)
    else
      Datapath(s, x)
  }

  /** A jump, or a branch whose condition holds: `beq` when the operands are
      equal, `bne` when they differ. */
  predicate Transfers(s: State, ins: Instruction) {
    ins.op == J || (ins.op.IsBranch() && ((ins.op == Beq) <==> s.regs[ins.rs] == s.regs[ins.rt]))
  }

  /** A transfer to a mapped, non-empty label moves the PC to four times the label's
      index; an unmapped label stops the run with the state untouched; an
      empty label leaves the state untouched and carries on, so the same
      instruction runs again. Registers and memory never change. */
  lemma ControlTransfer(s: State, ins: Instruction, labels: LabelMap)
    requires Transfers(s, ins)
    ensures Step(s, ins, labels).state.regs == s.regs
    ensures Step(s, ins, labels).state.mem == s.mem
    ensures ins.target != "" && ins.target in labels ==>
              Step(s, ins, labels) == StepResult(s.(pc := TargetPc(labels[ins.target])), 0, NoAccess, Continue)
    ensures Step(s, ins, labels).status == Unresolved <==> ins.target != "" && ins.target !in labels
    ensures ins.target == "" ==> Step(s, ins, labels) == StepResult(s, 0, NoAccess, Continue)
  {
  }

  /** A branch whose condition fails only advances the PC. */
  lemma BranchNotTaken(s: State, ins: Instruction, labels: LabelMap)
    requires ins.op.IsBranch() && !Transfers(s, ins)
    ensures Step(s, ins, labels) == StepResult(s.(pc := NextPc(s.pc)), 0, NoAccess, Continue)
  {
  }

  /** The instructions whose write back stores the ALU output itself. */
  predicate WritesAluOut(op: Opcode) {
    (op.IsRType() && op != Slt && op != Sltu) || op.IsShift() || op.IsIType()
  }

  /** R-type instructions other than `slt`/`sltu` apply the ALU to `rs` and
      `rt` and write `rd`; shifts shift `rt` by the immediate into `rd`;
      I-type instructions apply the ALU to `rs` and the extended immediate and
      write `rt`. Memory is untouched and the PC advances. */
  lemma AluWriteback(s: State, ins: Instruction, labels: LabelMap)
    requires WritesAluOut(ins.op) && !IsHalt(ins)
    ensures var r := Step(s, ins, labels);
      && r.status == Continue
      && r.access == NoAccess
      && r.state == State(s.regs[Destination(ins) := r.aluOut], NextPc(s.pc), s.mem)
      && (ins.op.IsRType() ==> r.aluOut == Alu.Execute(ins.op, s.regs[ins.rs], s.regs[ins.rt]))
      && (ins.op.IsShift() ==> r.aluOut == Alu.Execute(ins.op, s.regs[ins.rt], ins.imm))
      && (ins.op.IsIType() ==>
            r.aluOut == Alu.Execute(ins.op, s.regs[ins.rs], ExtendImmediate(ins).imm))
  {
  }

  /** `slt` and `sltu` write the 0/1 comparison of `rs` with `rt` (signed for
      `slt`, unsigned for `sltu`) to `rd`, while the reported ALU output is
      the wrapped difference `rs - rt`. */
  lemma SetOnLessWriteback(s: State, ins: Instruction, labels: LabelMap)
    requires ins.op == Slt || ins.op == Sltu
    ensures var r := Step(s, ins, labels);
      var a := s.regs[ins.rs];
      var b := s.regs[ins.rt];
      && r.status == Continue
      && r.state == State(s.regs[ins.rd := Alu.Execute(ins.op, a, b)], NextPc(s.pc), s.mem)
      && r.aluOut == Alu.Execute(Sub, a, b)
      && (ins.op == Slt ==> (r.state.regs[ins.rd] == 1 <==> Signed(a) < Signed(b)))
      && (ins.op == Sltu ==> (r.state.regs[ins.rd] == 1 <==> a < b))
      && r.state.regs[ins.rd] <= 1
  {
  }

  /** The effective address of a load or store: `rs` plus the offset, with
      32-bit wrap-around. */
  function Address(s: State, ins: Instruction): Word {
    AddWrap(s.regs[ins.rs], ins.imm)
  }

  /** `sw` writes `rt` to its effective address and changes nothing else. */
  lemma StoreWord(s: State, ins: Instruction, labels: LabelMap)
    requires ins.op == Sw
    ensures var r := Step(s, ins, labels);
      && r.status == Continue
      && r.access == Stored(Address(s, ins), s.regs[ins.rt])
      && r.state == State(s.regs, NextPc(s.pc), s.mem[Address(s, ins) := s.regs[ins.rt]])
      && r.aluOut == Address(s, ins)
  {
  }

  /** `lw` writes the word at its effective address to `rt`, 0 when that
      address was never written. */
  lemma LoadWord(s: State, ins: Instruction, labels: LabelMap)
    requires ins.op == Lw
    ensures var r := Step(s, ins, labels);
      && r.status == Continue
      && r.access == Loaded(Address(s, ins), Load(s.mem, Address(s, ins)))
      && r.state == State(s.regs[ins.rt := Load(s.mem, Address(s, ins))], NextPc(s.pc), s.mem)
      && (Address(s, ins) !in s.mem ==> r.state.regs[ins.rt] == 0)
      && (Address(s, ins) in s.mem ==> r.state.regs[ins.rt] == s.mem[Address(s, ins)])
  {
  }

  /** A load from the address a store just wrote reads the stored word. */
  lemma StoreThenLoad(s: State, store: Instruction, load: Instruction, labels: LabelMap)
    requires store.op == Sw && load.op == Lw
    requires Address(s, store) == Address(s, load)
    ensures var s1 := Step(s, store, labels).state;
      Step(s1, load, labels).state.regs[load.rt] == s.regs[store.rt]
  {
    StoreWord(s, store, labels);
    var s1 := Step(s, store, labels).state;
    assert Address(s1, load) == Address(s, store);
    LoadWord(s1, load, labels);
  }

  /** The halt instruction changes nothing but the PC, which advances by 4. */
  lemma HaltStep(s: State, ins: Instruction, labels: LabelMap)
    requires IsHalt(ins)
    ensures var r := Step(s, ins, labels);
      r.status == Halt && r.state == s.(pc := NextPc(s.pc)) && r.access == NoAccess
  {
  }

  /** An unrecognised opcode adds `rs` and `rt` in the ALU, writes nothing and
      advances the PC. */
  lemma UnknownOpcode(s: State, ins: Instruction, labels: LabelMap)
    requires ins.op == Unknown
    ensures Step(s, ins, labels) ==
      StepResult(s.(pc := NextPc(s.pc)), AddWrap(s.regs[ins.rs], s.regs[ins.rt]), NoAccess, Continue)
  {
    var a := s.regs[ins.rs];
    var b := s.regs[ins.rt];
    assert ExtendImmediate(ins) == ins;
    assert !Generate(ins.op).aluSrc;
    Alu.AddsIsSum(Unknown, a, b);
    assert Writeback(s.regs, ins, a, b, AddWrap(a, b), Load(s.mem, AddWrap(a, b))) == (s.regs, AddWrap(a, b));
  }

  /** Running the stored, already extended, instruction is the same as
      running the instruction as loaded. */
  lemma StepSeesExtendedImmediate(s: State, ins: Instruction, labels: LabelMap)
    ensures Step(s, ExtendImmediate(ins), labels) == Step(s, ins, labels)
  {
    ExtendImmediateIdempotent(ins);
  }

  /** Only the destination register can change. */
  lemma RegisterFrame(s: State, ins: Instruction, labels: LabelMap, k: RegIndex)
    requires k != Destination(ins)
    ensures Step(s, ins, labels).state.regs[k] == s.regs[k]
  {
  }

  /** The control signals predict what the cycle does: no register changes
      without RegWrite, no memory change without MemWrite, a load exactly
      with MemRead, a store exactly with MemWrite, and the PC advances by 4
      unless Jump or Branch is set. */
  lemma ControlPredictsEffects(s: State, ins: Instruction, labels: LabelMap)
    ensures var c := Generate(ins.op);
      var r := Step(s, ins, labels);
      && (!c.regWrite ==> r.state.regs == s.regs)
      && (!c.memWrite ==> r.state.mem == s.mem)
      && (c.memRead <==> r.access.Loaded?)
      && (c.memWrite <==> r.access.Stored?)
      && (!c.jump && !c.branch ==> r.state.pc == NextPc(s.pc))
  {
  }

  /** A word-aligned PC stays word aligned. */
  lemma StepKeepsAlignment(s: State, ins: Instruction, labels: LabelMap)
    requires s.pc % 4 == 0
    ensures Step(s, ins, labels).state.pc % 4 == 0
  {
  }
}
