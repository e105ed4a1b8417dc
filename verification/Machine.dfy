/** The run loop as a state machine over values (src/riscv/emulator.cpp:15-103): what one pass of the
    loop does, and what a number of passes do. `Emulator.Run` is proved against it.

    `continue` inside the `for` statement still runs its update expression, so every pass that does not
    throw ends by adding 4 to the program counter, also after a jump. */
module Machine {
  import opened Bits
  import opened Instructions

  /** x0, x1, ..., x31 */
  type Registers = r: seq<Word64> | |r| == 32 witness seq(32, _ => 0)

  datatype State = State(registers: Registers, programCounter: Word64, cycleCounter: Word64)

  /** A `Thread {}`. */
  const FRESH: State := State(seq(32, _ => 0), 0, 0)

  predicate RegistersExist(p: seq<Instruction>) {
    forall i :: i in p ==> i.RegistersExist()
  }

  function SetRegister(registers: Registers, index: nat, value: Word64): Registers
    requires index < 32
  {
    if index == 0 then registers else registers[index := value]
  }

  function Next(pc: Word64): Word64 {
    Wrap64(pc + 4)
  }

  /** The comparison each branch makes, on the unsigned register contents. */
  function Taken(branch: BranchType, x: Word64, y: Word64): bool {
    match branch
    case BEQ => x == y
    case BNE => x != y
    case BLT => Signed(64, x) < Signed(64, y)
    case BGE => Signed(64, x) >= Signed(64, y)
    case BLTU => x < y
    case BGEU => x >= y
  }

  predicate Supported(kind: Type) {
    kind == LUI || kind == AUIPC || kind == JAL || kind == JALR || kind.Branch?
  }

  /** The body of the switch: registers and program counter before the loop's update expression. */
  function Execute(i: Instruction, s: State): State
    requires i.RegistersExist()
  {
    var pc, imm := s.programCounter, i.Imm();
    match i.kind
    case LUI => s.(registers := SetRegister(s.registers, i.destinationRegister, Wrap64(imm)))
    case AUIPC => s.(registers := SetRegister(s.registers, i.destinationRegister, Wrap64(pc + imm)))
    case JAL =>
      s.(registers := SetRegister(s.registers, i.destinationRegister, Next(pc)), programCounter := Wrap64(pc + imm))
    case JALR =>
      var linked := SetRegister(s.registers, i.destinationRegister, Next(pc));
      s.(registers := linked, programCounter := ClearLowBit(Wrap64(linked[i.sourceRegister1] + imm)))
    case Branch(branch) =>
      if Taken(branch, s.registers[i.sourceRegister1], s.registers[i.sourceRegister2])
      then s.(programCounter := Wrap64(pc + imm))
      else s
    case _ => s
  }

  lemma UnsupportedChangesNothing(i: Instruction, s: State)
    requires i.RegistersExist() && !Supported(i.kind)
    ensures Execute(i, s) == s
  {
  }

  /** `value & ~0b1` */
  function ClearLowBit(value: Word64): (r: Word64)
    ensures r == value - value % 2
  {
    ClearLowBitValue(value);
    ClearBit(64, value, 0)
  }

  lemma ClearLowBitValue(value: Word64)
    ensures ClearBit(64, value, 0) == value - value % 2
  {
    hide ClearBit;
    Pow2Values();
    assert Pow2(0) == 1;
    ClearBitValue(64, value, 0);
  }

  /** One pass of the loop over a supported instruction. */
  function Step(i: Instruction, s: State): State
    requires i.RegistersExist()
  {
    var executed := Execute(i, Counted(s));
    executed.(programCounter := Next(executed.programCounter))
  }

  function Counted(s: State): State {
    s.(cycleCounter := Wrap64(s.cycleCounter + 1))
  }

  datatype Status = Running | Returned | Threw

  /** Where a run stands after at most `budget` passes, and how many instructions it fetched. */
  datatype Outcome = Outcome(state: State, status: Status, fetched: nat)

  function Run(p: seq<Instruction>, s: State, budget: nat): Outcome
    requires RegistersExist(p)
    decreases budget
  {
    if s.programCounter / 4 >= |p| then Outcome(s, Returned, 0)
    else if budget == 0 then Outcome(s, Running, 0)
    else
      var i := p[s.programCounter / 4];
      if !Supported(i.kind) then Outcome(Counted(s), Threw, 1)
      else Fetched(1, Run(p, Step(i, s), budget - 1))
  }

  function Fetched(more: nat, r: Outcome): Outcome {
    r.(fetched := more + r.fetched)
  }

  /** Running on from where a run stands. */
  lemma {:induction false} RunOn(p: seq<Instruction>, s: State, a: nat, b: nat)
    requires RegistersExist(p)
    ensures var r := Run(p, s, a);
      Run(p, s, a + b) == if r.status == Running then Fetched(r.fetched, Run(p, r.state, b)) else r
    decreases a
  {
    if s.programCounter / 4 < |p| && a > 0 && Supported(p[s.programCounter / 4].kind) {
      RunOn(p, Step(p[s.programCounter / 4], s), a - 1, b);
    }
  }

  /** Accounting over whole runs. The cycle counter rises by the number of fetched instructions; a run that
      is still going has used its whole budget. */
  lemma {:induction false} CyclesAreFetches(p: seq<Instruction>, s: State, budget: nat)
    requires RegistersExist(p)
    ensures var r := Run(p, s, budget);
      && r.state.cycleCounter == Wrap64(s.cycleCounter + r.fetched)
      && r.fetched <= budget && (r.status == Running ==> r.fetched == budget)
      && (r.status == Returned <==> r.state.programCounter / 4 >= |p|)
    decreases budget
  {
    hide Execute, Wrap64, Supported;
    WrapSum(s.cycleCounter + 1, 0);
    WrapWord(s.cycleCounter);
    if s.programCounter / 4 < |p| && budget > 0 && Supported(p[s.programCounter / 4].kind) {
      ExecuteKeepsCycles(p[s.programCounter / 4], Counted(s));
      var next := Step(p[s.programCounter / 4], s);
      CyclesAreFetches(p, next, budget - 1);
      var rest := Run(p, next, budget - 1);
      WrapSum(s.cycleCounter + 1, rest.fetched);
    }
  }

  /** The instructions that a run executed to the end; one that threw was only fetched. */
  function Executed(r: Outcome): int {
    if r.status == Threw then r.fetched - 1 else r.fetched
  }

  /** The documentation has the counter rise after an instruction is executed. The run agrees exactly when it does
      not throw. */
  lemma CyclesAreExecutedExactly(p: seq<Instruction>, s: State, budget: nat)
    requires RegistersExist(p)
    ensures var r := Run(p, s, budget);
      r.state.cycleCounter == Wrap64(s.cycleCounter + Executed(r)) <==> r.status != Threw
  {
    hide Run, Wrap64;
    CyclesAreFetches(p, s, budget);
    var r := Run(p, s, budget);
    NextDiffers(s.cycleCounter + Executed(r));
  }

  lemma NextDiffers(x: int)
    ensures Wrap64(x + 1) != Wrap64(x)
  {
  }

  /** A run that executes nothing and counts one cycle: its only instruction is an ADDI, which throws. */
  lemma ThrowIsCounted()
    ensures var addi := Instruction(OpImm(ADDI), Immediate(0), 0, 0, 0);
      && RegistersExist([addi])
      && var r := Run([addi], FRESH, 1);
         r.status == Threw && Executed(r) == 0 && r.state.cycleCounter == 1
  {
    WrapWord(1);
  }

  lemma ExecuteKeepsCycles(i: Instruction, s: State)
    requires i.RegistersExist()
    ensures Execute(i, s).cycleCounter == s.cycleCounter
  {
    hide Taken;
  }

  lemma WrapWord(x: Word64)
    ensures Wrap64(x) == x
  {
  }

  lemma WrapSum(a: int, b: int)
    ensures Wrap64(Wrap64(a) + b) == Wrap64(a + b)
  {
  }

  /** Running again after a normal return changes nothing. */
  lemma ReturnIsFinal(p: seq<Instruction>, s: State, budget: nat, again: nat)
    requires RegistersExist(p) && Run(p, s, budget).status == Returned
    ensures Run(p, Run(p, s, budget).state, again) == Outcome(Run(p, s, budget).state, Returned, 0)
  {
    CyclesAreFetches(p, s, budget);
  }

  /** A pass over an instruction throws if and only if it is none of LUI, AUIPC, JAL, JALR and the branches. */
  lemma PassThrowsExactly(p: seq<Instruction>, s: State, budget: nat)
    requires RegistersExist(p) && s.programCounter / 4 < |p| && budget >= 1
    ensures var kind := p[s.programCounter / 4].kind;
      Run(p, s, 1).status == Threw <==>
        !(kind == LUI || kind == AUIPC || kind == JAL || kind == JALR || kind.Branch?)
    ensures Run(p, s, 1).status == Threw ==> Run(p, s, budget) == Run(p, s, 1)
  {
    hide Step;
    if Supported(p[s.programCounter / 4].kind) {
      var next := Step(p[s.programCounter / 4], s);
      assert Run(p, next, 0).status != Threw;
    }
  }

  /** A throw leaves the thread as the passes before it left it, on the first unsupported instruction it
      reached, with only the cycle counter one higher. */
  lemma {:induction false} ThrowKeepsState(p: seq<Instruction>, s: State, budget: nat)
    requires RegistersExist(p) && Run(p, s, budget).status == Threw
    ensures var r := Run(p, s, budget);
      && r.fetched >= 1
      && Run(p, s, r.fetched - 1).status == Running
      && r.state == Counted(Run(p, s, r.fetched - 1).state)
      && r.state.programCounter / 4 < |p|
      && var kind := p[r.state.programCounter / 4].kind;
         kind !in {LUI, AUIPC, JAL, JALR} && !kind.Branch?
    decreases budget
  {
    if Supported(p[s.programCounter / 4].kind) {
      ThrowKeepsState(p, Step(p[s.programCounter / 4], s), budget - 1);
    }
  }
}
