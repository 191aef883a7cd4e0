/** The end-to-end example: two immediates added, stored through `$gp`,
    loaded back, then the halt instruction. */
module ExampleRun {
  import opened Words
  import opened Isa
  import opened Machine
  import opened Simulator

  /** Register numbers of `$t0` .. `$t3` and `$gp`. */
  const T0: RegIndex := 8
  const T1: RegIndex := 9
  const T2: RegIndex := 10
  const T3: RegIndex := 11
  const Gp: RegIndex := 28

  /** addi $t0, $zero, 5 / addi $t1, $zero, 3 / add $t2, $t0, $t1 /
      sw $t2, 0($gp) / lw $t3, 0($gp) / sll $zero, $zero, 0 */
  const Program: Program := [
    Instruction(Addi, 0, T0, 0, 5, ""),
    Instruction(Addi, 0, T1, 0, 3, ""),
    Instruction(Add, T0, T1, T2, 0, ""),
    Instruction(Sw, Gp, T2, 0, 0, ""),
    Instruction(Lw, Gp, T3, 0, 0, ""),
    Instruction(Sll, 0, 0, 0, 0, "")
  ]

  /** The state after each cycle of the example. */
  const S1: State := State(Init().regs[T0 := 5], 4, map[])
  const S2: State := State(S1.regs[T1 := 3], 8, map[])
  const S3: State := State(S2.regs[T2 := 8], 12, map[])
  const S4: State := State(S3.regs, 16, map[GlobalPointer := 8])
  const S5: State := State(S4.regs[T3 := 8], 20, S4.mem)
  const Final: State := S5.(pc := 0x18)

  /** One cycle of the run that does not stop it. */
  lemma RunContinues(prog: Program, labels: LabelMap, s: State, cycles: nat, fuel: nat)
    requires s.pc / 4 < |prog| && fuel > 0
    requires Step(s, prog[s.pc / 4], labels).status == Continue
    ensures Run(prog, labels, s, cycles, fuel) ==
      Run(prog[s.pc / 4 := ExtendImmediate(prog[s.pc / 4])], labels,
          Step(s, prog[s.pc / 4], labels).state, cycles + 1, fuel - 1)
  {
  }

  /** The stored program never changes: both immediates are already in
      sign-extended form. */
  lemma ProgramIsExtended(i: nat)
    requires i < |Program|
    ensures Program[i := ExtendImmediate(Program[i])] == Program
  {
  }

  lemma FromCycle5(fuel: nat)
    requires fuel >= 1
    ensures Run(Program, map[], S5, 5, fuel) == Outcome(Final, Program, 6, Halted)
  {
    HaltEndsRun(Program, map[], S5, 5, fuel, 5);
  }

  lemma FromCycle4(fuel: nat)
    requires fuel >= 2
    ensures Run(Program, map[], S4, 4, fuel) == Outcome(Final, Program, 6, Halted)
  {
    LoadWord(S4, Program[4], map[]);
    assert Step(S4, Program[4], map[]).state == S5;
    ProgramIsExtended(4);
    RunContinues(Program, map[], S4, 4, fuel);
    FromCycle5(fuel - 1);
  }

  lemma FromCycle3(fuel: nat)
    requires fuel >= 3
    ensures Run(Program, map[], S3, 3, fuel) == Outcome(Final, Program, 6, Halted)
  {
    StoreWord(S3, Program[3], map[]);
    assert Step(S3, Program[3], map[]).state == S4;
    ProgramIsExtended(3);
    RunContinues(Program, map[], S3, 3, fuel);
    FromCycle4(fuel - 1);
  }

  lemma FromCycle2(fuel: nat)
    requires fuel >= 4
    ensures Run(Program, map[], S2, 2, fuel) == Outcome(Final, Program, 6, Halted)
  {
    AluWriteback(S2, Program[2], map[]);
    assert Step(S2, Program[2], map[]).state == S3;
    ProgramIsExtended(2);
    RunContinues(Program, map[], S2, 2, fuel);
    FromCycle3(fuel - 1);
  }

  lemma FromCycle1(fuel: nat)
    requires fuel >= 5
    ensures Run(Program, map[], S1, 1, fuel) == Outcome(Final, Program, 6, Halted)
  {
    assert ExtendImmediate(Program[1]).imm == 3 && S1.regs[0] == 0;
    AluWriteback(S1, Program[1], map[]);
    assert Step(S1, Program[1], map[]).state == S2;
    ProgramIsExtended(1);
    RunContinues(Program, map[], S1, 1, fuel);
    FromCycle2(fuel - 1);
  }

  /** With enough fuel the example halts after six cycles with `$t0 = 5`,
      `$t1 = 3`, `$t2 = $t3 = 8`, the word 8 stored at 0x10008000 and the PC
      at 0x18, four past the halt instruction at index 5. */
  lemma ExampleProgramRun(fuel: nat)
    requires fuel >= 6
    ensures var o := Run(Program, map[], Init(), 0, fuel);
      && o.stop == Halted && o.cycles == 6 && o.state.pc == 0x18
      && o.state.regs[T0] == 5 && o.state.regs[T1] == 3
      && o.state.regs[T2] == 8 && o.state.regs[T3] == 8
      && o.state.mem == map[GlobalPointer := 8]
  {
    assert ExtendImmediate(Program[0]).imm == 5 && Init().regs[0] == 0;
    AluWriteback(Init(), Program[0], map[]);
    assert Step(Init(), Program[0], map[]).state == S1;
    ProgramIsExtended(0);
    RunContinues(Program, map[], Init(), 0, fuel);
    FromCycle1(fuel - 1);
  }
}
