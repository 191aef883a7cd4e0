/** The fetch loop: from the initial state, fetch the instruction at
    `pc / 4`, run one cycle, and repeat until the index passes the end of the
    program, the halt instruction retires, or a label cannot be resolved.

    The loop of the simulator is not bounded: a jump to an empty label
    repeats forever. `Run` therefore takes a fuel bound, the most cycles it
    may execute, and reports when the bound was what stopped it.
 */
module Simulator {
  import opened Words
  import opened Isa
  import opened Machine

  type Program = seq<Instruction>

  /** Why a run ended. `Halted` and `LabelMissing` are the two ways the
      simulator's `finished` flag is set; `Exhausted` is the fetch index
      passing the end of the program; `OutOfFuel` is the model's bound. */
  datatype Stop = Halted | LabelMissing | Exhausted | OutOfFuel

  /** The final state, the stored program (whose immediates the cycles
      extended in place), the cycle count and the reason for stopping. */
  datatype Outcome = Outcome(state: State, program: Program, cycles: nat, stop: Stop)

  /** One cycle of the datapath as a function value, the label map fixed. */
  type Cycle = (State, Instruction) -> StepResult

  function CycleOf(labels: LabelMap): Cycle {
    (s: State, ins: Instruction) => Step(s, ins, labels)
  }

  /** The fetch loop over any cycle function: from state `s` with `cycles`
      already counted, run at most `fuel` more cycles. Every executed
      instruction counts one cycle, the halting one included, and is written
      back to the program with its immediate extended. */
  function Loop(cycle: Cycle, prog: Program, s: State, cycles: nat, fuel: nat): Outcome
    decreases fuel
  {
    var index := s.pc / 4;
    if index >= |prog| then Outcome(s, prog, cycles, Exhausted)
    else if fuel == 0 then Outcome(s, prog, cycles, OutOfFuel)
    else
      var ins := prog[index];
      var r := cycle(s, ins);
      var stored := prog[index := ExtendImmediate(ins)];
      match r.status
      case Halt => Outcome(r.state, stored, cycles + 1, Halted)
      case Unresolved => Outcome(r.state, stored, cycles + 1, LabelMissing)
      case Continue => Loop(cycle, stored, r.state, cycles + 1, fuel - 1)
  }

  /** What any run reports: the cycle count grows by at most the fuel, and
      by exactly the fuel when the fuel stopped it; a halt or an unresolved
      label counted the cycle it happened in; the program keeps its length;
      an exhausted run stopped with its fetch index past the end. */
  lemma {:induction false} LoopBounds(cycle: Cycle, prog: Program, s: State, cycles: nat, fuel: nat)
    ensures var o := Loop(cycle, prog, s, cycles, fuel);
      && cycles <= o.cycles <= cycles + fuel
      && |o.program| == |prog|
      && (o.stop == Exhausted ==> o.state.pc / 4 >= |o.program|)
      && (o.stop == OutOfFuel ==> o.cycles == cycles + fuel)
      && (o.stop == Halted || o.stop == LabelMissing ==> o.cycles > cycles)
    decreases fuel
  {
    var index := s.pc / 4;
    if index < |prog| && fuel > 0 {
      var ins := prog[index];
      var r := cycle(s, ins);
      if r.status == Continue {
        var stored := prog[index := ExtendImmediate(ins)];
        LoopBounds(cycle, stored, r.state, cycles + 1, fuel - 1);
        assert Loop(cycle, prog, s, cycles, fuel) == Loop(cycle, stored, r.state, cycles + 1, fuel - 1);
        assert cycles + 1 + (fuel - 1) == cycles + fuel;
      }
    }
  }

  /** The simulator's run: the fetch loop over the datapath. */
  function Run(prog: Program, labels: LabelMap, s: State, cycles: nat, fuel: nat): Outcome {
    Loop(CycleOf(labels), prog, s, cycles, fuel)
  }

  /** The simulation loop as the simulator writes it, with a cycle bound, over
      a cycle function (the simulator's is `CycleOf(labels)`): it computes
      exactly the bounded fetch loop from the initial state. */
  method Simulate(cycle: Cycle, program: Program, maxCycles: nat) returns (o: Outcome)
    ensures o == Loop(cycle, program, Init(), 0, maxCycles)
    ensures o.cycles <= maxCycles
  {
    var instrMem := program;
    var s := Init();
    var cycles: nat := 0;
    var status := Continue;
    while status == Continue && s.pc / 4 < |instrMem| && cycles < maxCycles
      invariant |instrMem| == |program| && cycles <= maxCycles
      invariant status == Continue ==>
        Loop(cycle, instrMem, s, cycles, maxCycles - cycles) == Loop(cycle, program, Init(), 0, maxCycles)
      invariant status == Halt ==>
        Loop(cycle, program, Init(), 0, maxCycles) == Outcome(s, instrMem, cycles, Halted)
      invariant status == Unresolved ==>
        Loop(cycle, program, Init(), 0, maxCycles) == Outcome(s, instrMem, cycles, LabelMissing)
      decreases maxCycles - cycles
    {
      var index := s.pc / 4;
      var ins := instrMem[index];
      ghost var before := Loop(cycle, instrMem, s, cycles, maxCycles - cycles);
      cycles := cycles + 1;
      var r := cycle(s, ins);
      instrMem := instrMem[index := ExtendImmediate(ins)];
      s := r.state;
      status := r.status;
      assert maxCycles - cycles == (maxCycles - (cycles - 1)) - 1;
      assert status == Continue ==> before == Loop(cycle, instrMem, s, cycles, maxCycles - cycles);
    }
    var stop :=
      if status == Halt then Halted
      else if status == Unresolved then LabelMissing
      else if s.pc / 4 >= |instrMem| then Exhausted
      else OutOfFuel;
    o := Outcome(s, instrMem, cycles, stop);
  }

  /** More fuel does not change a run that the fuel did not cut short. */
  lemma {:induction false} LoopMoreFuel(cycle: Cycle, prog: Program, s: State, cycles: nat, fuel: nat, extra: nat)
    requires Loop(cycle, prog, s, cycles, fuel).stop != OutOfFuel
    ensures Loop(cycle, prog, s, cycles, fuel + extra) == Loop(cycle, prog, s, cycles, fuel)
    decreases fuel
  {
    var index := s.pc / 4;
    if index < |prog| && fuel > 0 {
      var r := cycle(s, prog[index]);
      if r.status == Continue {
        var stored := prog[index := ExtendImmediate(prog[index])];
        LoopMoreFuel(cycle, stored, r.state, cycles + 1, fuel - 1, extra);
        assert (fuel + extra) - 1 == (fuel - 1) + extra;
      }
    }
  }

  /** A fetch index at or past the end of the program stops the loop before
      any cycle runs. */
  lemma FetchPastEndStops(cycle: Cycle, prog: Program, s: State, cycles: nat, fuel: nat)
    requires s.pc / 4 >= |prog|
    ensures Loop(cycle, prog, s, cycles, fuel) == Outcome(s, prog, cycles, Exhausted)
  {
  }

  /** A cycle that continues hands the rest of the run back to the loop, with
      the instruction written back, one more cycle counted and one less unit
      of fuel. */
  lemma LoopContinues(cycle: Cycle, prog: Program, s: State, cycles: nat, fuel: nat)
    requires s.pc / 4 < |prog| && fuel > 0
    requires cycle(s, prog[s.pc / 4]).status == Continue
    ensures Loop(cycle, prog, s, cycles, fuel) ==
      Loop(cycle, prog[s.pc / 4 := ExtendImmediate(prog[s.pc / 4])], cycle(s, prog[s.pc / 4]).state,
           cycles + 1, fuel - 1)
  {
  }

  /** Runs compose: `a` cycles that all continue, followed by `b` more from
      where they left off, are the same as one run of `a + b` cycles. With
      the `OutOfFuel` count this says every executed cycle adds exactly one
      to the cycle count. */
  lemma {:induction false} LoopCompose(cycle: Cycle, prog: Program, s: State, cycles: nat, a: nat, b: nat)
    requires Loop(cycle, prog, s, cycles, a).stop == OutOfFuel
    ensures Loop(cycle, prog, s, cycles, a).cycles == cycles + a
    ensures var o := Loop(cycle, prog, s, cycles, a);
      Loop(cycle, o.program, o.state, o.cycles, b) == Loop(cycle, prog, s, cycles, a + b)
    decreases a
  {
    var o := Loop(cycle, prog, s, cycles, a);
    var index := s.pc / 4;
    assert index < |prog|;
    if a == 0 {
      assert o == Outcome(s, prog, cycles, OutOfFuel);
      assert a + b == b;
      assert Loop(cycle, o.program, o.state, o.cycles, b) == Loop(cycle, prog, s, cycles, a + b);
    } else {
      var ins := prog[index];
      var r := cycle(s, ins);
      var stored := prog[index := ExtendImmediate(ins)];
      assert r.status == Continue;
      LoopContinues(cycle, prog, s, cycles, a);
      assert o == Loop(cycle, stored, r.state, cycles + 1, a - 1);
      LoopCompose(cycle, stored, r.state, cycles + 1, a - 1, b);
      assert Loop(cycle, o.program, o.state, o.cycles, b) == Loop(cycle, stored, r.state, cycles + 1, (a - 1) + b);
      assert (a + b) - 1 == (a - 1) + b;
      LoopContinues(cycle, prog, s, cycles, a + b);
      assert Loop(cycle, prog, s, cycles, a + b) == Loop(cycle, stored, r.state, cycles + 1, (a - 1) + b);
    }
  }

  /** A cycle function that keeps a word-aligned PC word aligned. */
  ghost predicate KeepsAlignment(cycle: Cycle) {
    forall s: State, ins: Instruction :: s.pc % 4 == 0 ==> cycle(s, ins).state.pc % 4 == 0
  }

  lemma DatapathKeepsAlignment(labels: LabelMap)
    ensures KeepsAlignment(CycleOf(labels))
  {
    forall s: State, ins: Instruction | s.pc % 4 == 0
      ensures CycleOf(labels)(s, ins).state.pc % 4 == 0
    {
      StepKeepsAlignment(s, ins, labels);
    }
  }

  /** A word-aligned PC stays word aligned for the whole run. */
  lemma {:induction false} LoopKeepsAlignment(cycle: Cycle, prog: Program, s: State, cycles: nat, fuel: nat)
    requires KeepsAlignment(cycle) && s.pc % 4 == 0
    ensures Loop(cycle, prog, s, cycles, fuel).state.pc % 4 == 0
    decreases fuel
  {
    var index := s.pc / 4;
    if index < |prog| && fuel > 0 {
      var r := cycle(s, prog[index]);
      if r.status == Continue {
        LoopKeepsAlignment(cycle, prog[index := ExtendImmediate(prog[index])], r.state, cycles + 1, fuel - 1);
      }
    }
  }

  /** The simulator's run keeps the PC word aligned. */
  lemma RunKeepsAlignment(prog: Program, labels: LabelMap, s: State, cycles: nat, fuel: nat)
    requires s.pc % 4 == 0
    ensures Run(prog, labels, s, cycles, fuel).state.pc % 4 == 0
  {
    DatapathKeepsAlignment(labels);
    LoopKeepsAlignment(CycleOf(labels), prog, s, cycles, fuel);
  }

  /** Fetching the halt instruction at index `k` ends the run in that cycle
      with the PC advanced by 4 (to `4k + 4`, or wrapped to 0 for the last
      word-aligned address) and nothing else changed. */
  lemma HaltEndsRun(prog: Program, labels: LabelMap, s: State, cycles: nat, fuel: nat, k: nat)
    requires s.pc == 4 * k && k < |prog| && IsHalt(prog[k]) && fuel > 0
    ensures Run(prog, labels, s, cycles, fuel) == Outcome(s.(pc := NextPc(s.pc)), prog, cycles + 1, Halted)
    ensures 4 * k + 4 < Modulus ==> Run(prog, labels, s, cycles, fuel).state.pc == 4 * k + 4
  {
    assert s.pc / 4 == k;
    HaltStep(s, prog[k], labels);
    assert prog[k := ExtendImmediate(prog[k])] == prog;
  }

  /** Every instruction of a program with its immediate extended. */
  function ExtendAll(prog: Program): (p: Program)
    ensures |p| == |prog|
    ensures forall i :: 0 <= i < |prog| ==> p[i] == ExtendImmediate(prog[i])
  {
    seq(|prog|, i requires 0 <= i < |prog| => ExtendImmediate(prog[i]))
  }

  /** Extending a stored instruction in place leaves the extended program as
      it was. */
  lemma ExtendInPlace(prog: Program, index: nat)
    requires index < |prog|
    ensures ExtendAll(prog[index := ExtendImmediate(prog[index])]) == ExtendAll(prog)
  {
    ExtendImmediateIdempotent(prog[index]);
  }

  /** A cycle function that only looks at the extended immediate. */
  ghost predicate SeesExtendedImmediate(cycle: Cycle) {
    forall s: State, ins: Instruction :: cycle(s, ExtendImmediate(ins)) == cycle(s, ins)
  }

  lemma DatapathSeesExtendedImmediate(labels: LabelMap)
    ensures SeesExtendedImmediate(CycleOf(labels))
  {
    forall s: State, ins: Instruction
      ensures CycleOf(labels)(s, ExtendImmediate(ins)) == CycleOf(labels)(s, ins)
    {
      StepSeesExtendedImmediate(s, ins, labels);
    }
  }

  /** Two programs that agree once their immediates are extended run alike:
      the same final state, cycle count and reason to stop, and stored
      programs that again agree once extended. */
  lemma {:induction false} LoopRespectsExtension(cycle: Cycle, p1: Program, p2: Program, s: State, cycles: nat, fuel: nat)
    requires SeesExtendedImmediate(cycle) && ExtendAll(p1) == ExtendAll(p2)
    ensures var o1 := Loop(cycle, p1, s, cycles, fuel);
      var o2 := Loop(cycle, p2, s, cycles, fuel);
      && o1.state == o2.state && o1.cycles == o2.cycles && o1.stop == o2.stop
      && ExtendAll(o1.program) == ExtendAll(o2.program)
    decreases fuel
  {
    var index := s.pc / 4;
    assert |p1| == |ExtendAll(p1)| == |p2|;
    if index < |p1| && fuel > 0 {
      var i1 := p1[index];
      var i2 := p2[index];
      assert ExtendImmediate(i1) == ExtendAll(p1)[index] == ExtendImmediate(i2);
      assert cycle(s, i1) == cycle(s, ExtendImmediate(i1)) == cycle(s, i2);
      ExtendInPlace(p1, index);
      ExtendInPlace(p2, index);
      var r := cycle(s, i1);
      if r.status == Continue {
        LoopRespectsExtension(cycle, p1[index := ExtendImmediate(i1)], p2[index := ExtendImmediate(i2)],
          r.state, cycles + 1, fuel - 1);
      }
    }
  }

  /** The write-back of extended immediates into the stored program is
      invisible: running a program and running it with every immediate
      already extended give the same final state, cycle count and reason to
      stop. */
  lemma WriteBackIsInvisible(prog: Program, labels: LabelMap, s: State, cycles: nat, fuel: nat)
    ensures var o1 := Run(prog, labels, s, cycles, fuel);
      var o2 := Run(ExtendAll(prog), labels, s, cycles, fuel);
      o1.state == o2.state && o1.cycles == o2.cycles && o1.stop == o2.stop
  {
    var e := ExtendAll(prog);
    forall i | 0 <= i < |prog|
      ensures ExtendAll(e)[i] == ExtendAll(prog)[i]
    {
      ExtendImmediateIdempotent(prog[i]);
    }
    DatapathSeesExtendedImmediate(labels);
    LoopRespectsExtension(CycleOf(labels), prog, e, s, cycles, fuel);
  }

  /** Once every immediate is extended, running the program never changes
      it again. */
  lemma {:induction false} ExtendedProgramIsStable(cycle: Cycle, prog: Program, s: State, cycles: nat, fuel: nat)
    requires ExtendAll(prog) == prog
    ensures Loop(cycle, prog, s, cycles, fuel).program == prog
    decreases fuel
  {
    var index := s.pc / 4;
    if index < |prog| && fuel > 0 {
      var ins := prog[index];
      assert ExtendImmediate(ins) == ExtendAll(prog)[index] == ins;
      assert prog[index := ExtendImmediate(ins)] == prog;
      var r := cycle(s, ins);
      if r.status == Continue {
        ExtendedProgramIsStable(cycle, prog, r.state, cycles + 1, fuel - 1);
      }
    }
  }
}
