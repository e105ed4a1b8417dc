/** The control transfer instructions as section 2.5 of the RISC-V Unprivileged ISA describes them, and how
    the run loop relates to them. The reference machine has no misaligned-target exception. */
module Isa {
  import opened Bits
  import opened Instructions
  import opened Machine

  function SignedValue(x: Word64): int {
    if x < 0x8000_0000_0000_0000 then x else x - TWO_64
  }

  function IsaTaken(branch: BranchType, x: Word64, y: Word64): bool {
    match branch
    case BEQ => x == y
    case BNE => x != y
    case BLT => SignedValue(x) < SignedValue(y)
    case BGE => SignedValue(x) >= SignedValue(y)
    case BLTU => x < y
    case BGEU => x >= y
  }

  /** The instructions that the reference machine has: the control transfers, LUI and AUIPC. */
  predicate Executes(kind: Type) {
    match kind
    case LUI => true
    case AUIPC => true
    case JAL => true
    case JALR => true
    case Branch(BEQ) => true
    case Branch(BNE) => true
    case Branch(BLT) => true
    case Branch(BGE) => true
    case Branch(BLTU) => true
    case Branch(BGEU) => true
    case _ => false
  }

  lemma SupportedExactly(kind: Type)
    ensures Supported(kind) <==> Executes(kind)
  {
  }

  /** Where control goes: all sources are read before anything is written. */
  function IsaTarget(i: Instruction, s: State): Word64
    requires i.RegistersExist()
  {
    var pc, imm := s.programCounter, i.Imm();
    match i.kind
    case JAL => Wrap64(pc + imm)
    case JALR =>
      var sum := Wrap64(s.registers[i.sourceRegister1] + imm);
      sum - sum % 2
    case Branch(branch) =>
      if IsaTaken(branch, s.registers[i.sourceRegister1], s.registers[i.sourceRegister2]) then Wrap64(pc + imm)
      else Wrap64(pc + 4)
    case _ => Wrap64(pc + 4)
  }

  /** What is written to rd; x0 cannot be written. */
  function IsaRegisters(i: Instruction, s: State): Registers
    requires i.RegistersExist()
  {
    var rd, pc, imm := i.destinationRegister, s.programCounter, i.Imm();
    if rd == 0 || i.kind.Branch? then s.registers
    else if i.kind == LUI then s.registers[rd := Wrap64(imm)]
    else if i.kind == AUIPC then s.registers[rd := Wrap64(pc + imm)]
    else s.registers[rd := Wrap64(pc + 4)]
  }

  function IsaStep(i: Instruction, s: State): State
    requires i.RegistersExist() && Executes(i.kind)
  {
    State(IsaRegisters(i, s), IsaTarget(i, s), Wrap64(s.cycleCounter + 1))
  }

  function IsaRun(p: seq<Instruction>, s: State, budget: nat): Outcome
    requires RegistersExist(p)
    decreases budget
  {
    if s.programCounter / 4 >= |p| then Outcome(s, Returned, 0)
    else if budget == 0 then Outcome(s, Running, 0)
    else
      var i := p[s.programCounter / 4];
      if !Executes(i.kind) then Outcome(s.(cycleCounter := Wrap64(s.cycleCounter + 1)), Threw, 1)
      else
        var rest := IsaRun(p, IsaStep(i, s), budget - 1);
        rest.(fetched := 1 + rest.fetched)
  }

  /** The program with 4 added to every jump and branch offset. */
  function ShiftTargets(p: seq<Instruction>): (q: seq<Instruction>)
    ensures |q| == |p| && forall k :: 0 <= k < |p| ==> q[k] == ShiftTarget(p[k])
    ensures RegistersExist(p) ==> RegistersExist(q)
  {
    var q := seq(|p|, k requires 0 <= k < |p| => ShiftTarget(p[k]));
    assert forall k :: 0 <= k < |p| ==> q[k] == ShiftTarget(p[k]) && p[k] in p;
    q
  }

  function ShiftTarget(i: Instruction): Instruction {
    if i.kind == JAL || i.kind == JALR || i.kind.Branch? then i.(payload := Immediate(i.Imm() + 4)) else i
  }

  /** A JALR that writes the very register it jumps through. */
  predicate LinksThroughItself(i: Instruction) {
    i.kind == JALR && i.destinationRegister == i.sourceRegister1 != 0
  }

  /** No addressable instruction, which is one that some program counter selects, links through itself. */
  ghost predicate NoSelfLink(p: seq<Instruction>) {
    forall k :: 0 <= k < |p| && 4 * k < TWO_64 ==> !LinksThroughItself(p[k])
  }

  predicate Jumps(i: Instruction, s: State)
    requires i.RegistersExist()
  {
    i.kind == JAL || i.kind == JALR
    || (i.kind.Branch? && IsaTaken(i.kind.branch, s.registers[i.sourceRegister1], s.registers[i.sourceRegister2]))
  }

  lemma SameComparison(branch: BranchType, x: Word64, y: Word64)
    ensures Taken(branch, x, y) == IsaTaken(branch, x, y)
  {
    Pow2Values();
  }

  /** As coded against as specified: a step that does not jump is the ISA's step; a jump does everything the
      ISA says but lands 4 bytes further, so it never is. */
  lemma StepMissesByFour(i: Instruction, s: State)
    requires i.RegistersExist() && Executes(i.kind) && !LinksThroughItself(i)
    ensures Step(i, s) == IsaStep(i, s).(programCounter :=
      Wrap64(IsaStep(i, s).programCounter + if Jumps(i, s) then 4 else 0))
    ensures Step(i, s) == IsaStep(i, s) <==> !Jumps(i, s)
  {
    hide Wrap64, Step, IsaStep, Jumps;
    JumpLandsFurther(i, s);
    WrapWord(IsaStep(i, s).programCounter);
    AddingFourMoves(IsaStep(i, s).programCounter);
  }

  lemma JumpLandsFurther(i: Instruction, s: State)
    requires i.RegistersExist() && Executes(i.kind) && !LinksThroughItself(i)
    ensures Step(i, s) == IsaStep(i, s).(programCounter :=
      Wrap64(IsaStep(i, s).programCounter + if Jumps(i, s) then 4 else 0))
  {
    hide Wrap64, Step, IsaStep, Jumps;
    if i.kind.Branch? {
      BranchLandsFurther(i, s);
    } else {
      OtherLandsFurther(i, s);
    }
  }

  lemma BranchLandsFurther(i: Instruction, s: State)
    requires i.RegistersExist() && i.kind.Branch?
    ensures Step(i, s) == IsaStep(i, s).(programCounter :=
      Wrap64(IsaStep(i, s).programCounter + if Jumps(i, s) then 4 else 0))
  {
    hide Wrap64, Taken, IsaTaken;
    WrapWord(IsaStep(i, s).programCounter);
    SameComparison(i.kind.branch, s.registers[i.sourceRegister1], s.registers[i.sourceRegister2]);
  }

  lemma OtherLandsFurther(i: Instruction, s: State)
    requires i.RegistersExist() && i.kind in {LUI, AUIPC, JAL, JALR} && !LinksThroughItself(i)
    ensures Step(i, s) == IsaStep(i, s).(programCounter :=
      Wrap64(IsaStep(i, s).programCounter + if Jumps(i, s) then 4 else 0))
  {
    hide Wrap64;
    WrapWord(IsaStep(i, s).programCounter);
  }

  function EvenPart(x: Word64): Word64 {
    x - x % 2
  }

  /** When a step is the ISA's step, exactly, for every instruction: when it does not jump; but a JALR that links
      through its own register, which as coded does not look at what the register held, agrees when the register
      held the link address plus 4, up to the bit that JALR clears. */
  lemma StepExactly(i: Instruction, s: State)
    requires i.RegistersExist() && Executes(i.kind)
    ensures Step(i, s) == IsaStep(i, s) <==>
      if LinksThroughItself(i)
      then
        EvenPart(Wrap64(s.registers[i.sourceRegister1] + i.Imm())) == EvenPart(Wrap64(s.programCounter + 8 + i.Imm()))
      else !Jumps(i, s)
  {
    hide Jumps;
    if LinksThroughItself(i) {
      SelfLinkExactly(i, s);
    } else {
      StepMissesByFour(i, s);
    }
  }

  lemma SelfLinkExactly(i: Instruction, s: State)
    requires i.RegistersExist() && LinksThroughItself(i)
    ensures Step(i, s) == IsaStep(i, s) <==>
      EvenPart(Wrap64(s.registers[i.sourceRegister1] + i.Imm())) == EvenPart(Wrap64(s.programCounter + 8 + i.Imm()))
  {
    hide Wrap64, Taken, IsaTaken;
    CodedSelfLink(i, s);
    WrapSum(s.programCounter + 4, i.Imm() + 4);
  }

  lemma AddingFourMoves(pc: Word64)
    ensures Wrap64(pc + 4) != pc
  {
    WrapAdd(pc, 4);
  }

  /** Clearing bit 0 commutes with adding 4, modulo 2^64. */
  lemma ClearThenAddFour(x: int)
    ensures var sum, shifted := Wrap64(x), Wrap64(x + 4);
      Wrap64(sum - sum % 2 + 4) == shifted - shifted % 2
  {
    var sum := Wrap64(x);
    WrapAdd(x, 4);
    WrapAdd(sum - sum % 2, 4);
    WrapAdd(sum, 0);
    EvenCarry(sum, 4);
    hide Wrap64;
  }

  lemma WrapAdd(x: int, d: int)
    requires 0 <= d < TWO_64
    ensures Wrap64(x + d) == if Wrap64(x) + d < TWO_64 then Wrap64(x) + d else Wrap64(x) + d - TWO_64
    ensures 0 <= x < TWO_64 ==> Wrap64(x) == x
  {
    var q, r := x / TWO_64, x % TWO_64;
    DivModUnique(x + d, TWO_64, if r + d < TWO_64 then q else q + 1, if r + d < TWO_64 then r + d else r + d - TWO_64);
    if 0 <= x < TWO_64 {
      DivModUnique(x, TWO_64, 0, x);
    }
  }

  /** An even number added to an even part never carries from the lost bit. */
  lemma EvenCarry(x: Word64, d: nat)
    requires d % 2 == 0
    ensures (x + d) % 2 == x % 2 && (x + d - TWO_64) % 2 == x % 2
    ensures x - x % 2 + d < TWO_64 <==> x + d < TWO_64
  {
  }

  lemma StepIsShiftedIsaStep(i: Instruction, s: State)
    requires i.RegistersExist() && Executes(i.kind) && !LinksThroughItself(i)
    ensures Step(i, s) == IsaStep(ShiftTarget(i), s)
  {
    hide Step, IsaStep, ShiftTarget;
    match i.kind
    case JALR => RegisterJumpIsShifted(i, s);
    case Branch(_) => BranchIsShifted(i, s);
    case _ => OtherIsShifted(i, s);
  }

  lemma RegisterJumpIsShifted(i: Instruction, s: State)
    requires i.RegistersExist() && i.kind == JALR && !LinksThroughItself(i)
    ensures Step(i, s) == IsaStep(ShiftTarget(i), s)
  {
    hide Wrap64;
    WrapSum(s.programCounter + i.Imm(), 4);
    ClearThenAddFour(s.registers[i.sourceRegister1] + i.Imm());
  }

  lemma BranchIsShifted(i: Instruction, s: State)
    requires i.RegistersExist() && i.kind.Branch?
    ensures Step(i, s) == IsaStep(ShiftTarget(i), s)
  {
    hide Wrap64, Taken, IsaTaken;
    WrapSum(s.programCounter + i.Imm(), 4);
    SameComparison(i.kind.branch, s.registers[i.sourceRegister1], s.registers[i.sourceRegister2]);
  }

  lemma OtherIsShifted(i: Instruction, s: State)
    requires i.RegistersExist() && i.kind in {LUI, AUIPC, JAL}
    ensures Step(i, s) == IsaStep(ShiftTarget(i), s)
  {
    hide Wrap64;
    WrapSum(s.programCounter + i.Imm(), 4);
  }

  lemma {:induction false} Lockstep(p: seq<Instruction>, s: State, budget: nat)
    requires RegistersExist(p) && NoSelfLink(p)
    ensures Run(p, s, budget) == IsaRun(ShiftTargets(p), s, budget)
    decreases budget
  {
    var k := s.programCounter / 4;
    if k < |p| && budget > 0 && Executes(p[k].kind) {
      StepIsShiftedIsaStep(p[k], s);
      Lockstep(p, Step(p[k], s), budget - 1);
    }
  }

  /** A state in which a self-linking JALR and the ISA's part ways: the register holds anything else than the
      link address by more than its low bit. */
  lemma SelfLinkDiverges(i: Instruction, pc: Word64) returns (s: State)
    requires i.RegistersExist() && LinksThroughItself(i)
    ensures s.programCounter == pc && Step(i, s).programCounter != IsaStep(ShiftTarget(i), s).programCounter
  {
    hide Step, IsaStep, ShiftTarget, Wrap64;
    var link, r := Next(pc), i.sourceRegister1;
    s := State(FRESH.registers[r := Wrap64(link + 2)], pc, 0);
    CodedSelfLink(i, s);
    MeantSelfLink(i, s, link + 2);
    EvenPartsDiffer(link + i.Imm() + 4);
  }

  lemma CodedSelfLink(i: Instruction, s: State)
    requires i.RegistersExist() && LinksThroughItself(i)
    ensures var x := Wrap64(Next(s.programCounter) + i.Imm() + 4);
      Step(i, s).programCounter == x - x % 2
  {
    hide Wrap64, Taken;
    ClearThenAddFour(Next(s.programCounter) + i.Imm());
  }

  lemma MeantSelfLink(i: Instruction, s: State, content: int)
    requires i.RegistersExist() && LinksThroughItself(i) && s.registers[i.sourceRegister1] == Wrap64(content)
    ensures var x := Wrap64(content + i.Imm() + 4);
      IsaStep(ShiftTarget(i), s).programCounter == x - x % 2
  {
    hide Wrap64, IsaTaken;
    WrapSum(content, i.Imm() + 4);
  }

  lemma EvenPartsDiffer(x: int)
    ensures var a, b := Wrap64(x), Wrap64(x + 2);
      a - a % 2 != b - b % 2
  {
    WrapAdd(x, 2);
    EvenCarry(Wrap64(x), 2);
    hide Wrap64;
  }

  lemma RunDiverges(p: seq<Instruction>, k: nat) returns (s: State)
    requires RegistersExist(p) && k < |p| && 4 * k < TWO_64 && LinksThroughItself(p[k])
    ensures Run(p, s, 1) != IsaRun(ShiftTargets(p), s, 1)
  {
    assert p[k] in p;
    s := SelfLinkDiverges(p[k], 4 * k);
    var q := ShiftTargets(p);
    hide Step, IsaStep, ShiftTarget;
    FirstPass(p, s);
    FirstIsaPass(q, s);
  }

  lemma FirstPass(p: seq<Instruction>, s: State)
    requires RegistersExist(p) && s.programCounter / 4 < |p| && Executes(p[s.programCounter / 4].kind)
    ensures Run(p, s, 1).state == Step(p[s.programCounter / 4], s)
  {
    hide Step;
    var next := Step(p[s.programCounter / 4], s);
    assert Run(p, next, 0).state == next;
  }

  lemma FirstIsaPass(p: seq<Instruction>, s: State)
    requires RegistersExist(p) && s.programCounter / 4 < |p| && Executes(p[s.programCounter / 4].kind)
    ensures IsaRun(p, s, 1).state == IsaStep(p[s.programCounter / 4], s)
  {
    hide IsaStep;
    var next := IsaStep(p[s.programCounter / 4], s);
    assert IsaRun(p, next, 0).state == next;
  }

  /** Lockstep simulation, with its exact condition: from every state and for every number of steps the loop
      does what the ISA machine does on the program with 4 added to its jump offsets, if and only if no
      addressable JALR links through itself. */
  lemma LockstepExactly(p: seq<Instruction>)
    requires RegistersExist(p)
    ensures NoSelfLink(p) <==> forall s: State, budget: nat :: Run(p, s, budget) == IsaRun(ShiftTargets(p), s, budget)
  {
    if NoSelfLink(p) {
      forall s: State, budget: nat
        ensures Run(p, s, budget) == IsaRun(ShiftTargets(p), s, budget)
      {
        Lockstep(p, s, budget);
      }
    } else {
      var k :| 0 <= k < |p| && 4 * k < TWO_64 && LinksThroughItself(p[k]);
      var s := RunDiverges(p, k);
    }
  }
}
