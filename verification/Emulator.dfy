/** The emulator and its run loop (src/riscv/emulator.hpp, src/riscv/emulator.cpp). */
module Emulators {
  import opened Bits
  import opened Memory
  import opened Instructions
  import opened Machine
  import opened Base
  import opened Arenas

  class Emulator {
    const memory: Arena
    var instructions: seq<Instruction>

    constructor (memorySizeBytes: Word64, address: nat)
      ensures fresh(memory) && fresh(memory.storage) && memory.Valid()
      ensures memory.State() == ArenaState(address, memorySizeBytes, memorySizeBytes) && memory.GetFreeOffset() == 0
      ensures memory.storage[..] == Zeros(memorySizeBytes) && instructions == []
    {
      var arena := new Arena(memorySizeBytes, address);
      memory, instructions := arena, [];
    }

    method SetInstructions(newInstructions: seq<Instruction>)
      modifies this`instructions
      ensures instructions == newInstructions
    {
      instructions := newInstructions;
    }

    /** `run`, cut off after `budget` passes of its loop, since the loop need not end. The frame says that
        nothing else of the thread changes: not the float registers, not fcsr. */
    method Run(t: Thread, budget: nat) returns (status: Status, ghost fetched: nat)
      requires t.Valid() && RegistersExist(instructions)
      modifies t`programCounter, t`cycleCounter, t.registers.registers
      ensures t.Valid()
      ensures Outcome(t.State(), status, fetched) == Machine.Run(instructions, old(t.State()), budget)
    {
      hide Machine.Execute, Supported, Wrap64, Signed, Taken;
      ghost var start := t.State();
      var passes := 0;
      fetched := 0;
      while passes < budget && t.GetInstructionIndex() < |instructions|
        invariant t.Valid() && passes <= budget && fetched == passes
        invariant Machine.Run(instructions, start, budget)
               == Fetched(passes, Machine.Run(instructions, t.State(), budget - passes))
      {
        ghost var before := t.State();
        t.cycleCounter := Wrap64(t.cycleCounter + 1);
        var instr := instructions[t.GetInstructionIndex()];
        assert t.State() == Counted(before);
        var supported := Execute(t, instr);
        fetched := fetched + 1;
        if !supported {
          UnsupportedChangesNothing(instr, Counted(before));
          return Threw, fetched;
        }
        t.programCounter := t.GetNextProgramCounter();
        assert t.State() == Step(instr, before);
        passes := passes + 1;
      }
      status := if t.GetInstructionIndex() < |instructions| then Running else Returned;
    }

    /** The switch of the loop's body: `continue` and `break` both go on to the loop's update expression, so
        both end this method. False stands for the exception. */
    method Execute(t: Thread, instr: Instruction) returns (supported: bool)
      requires t.Valid() && instr.RegistersExist()
      modifies t`programCounter, t.registers.registers
      ensures t.Valid() && supported == Supported(instr.kind)
      ensures supported <==> instr.kind in {LUI, AUIPC, JAL, JALR} || instr.kind.Branch?
      ensures t.State() == Machine.Execute(instr, old(t.State()))
    {
      supported := true;
      var rs1, rs2 := instr.sourceRegister1, instr.sourceRegister2;
      match instr.kind
      case LUI =>
        t.registers.Set(instr.destinationRegister, Wrap64(instr.Imm()));
      case AUIPC =>
        t.registers.Set(instr.destinationRegister, Wrap64(t.programCounter + instr.Imm()));
      case JAL =>
        t.registers.Set(instr.destinationRegister, t.GetNextProgramCounter());
        t.programCounter := Wrap64(t.programCounter + instr.Imm());
      case JALR =>
        t.registers.Set(instr.destinationRegister, t.GetNextProgramCounter());
        t.programCounter := Wrap64(t.registers.Get(rs1) + instr.Imm());
        t.programCounter := ClearLowBit(t.programCounter);
      case Branch(BEQ) =>
        if t.registers.Get(rs1) == t.registers.Get(rs2) {
          t.programCounter := Wrap64(t.programCounter + instr.Imm());
        }
      case Branch(BNE) =>
        if t.registers.Get(rs1) != t.registers.Get(rs2) {
          t.programCounter := Wrap64(t.programCounter + instr.Imm());
        }
      case Branch(BLT) =>
        if Signed(64, t.registers.Get(rs1)) < Signed(64, t.registers.Get(rs2)) {
          t.programCounter := Wrap64(t.programCounter + instr.Imm());
        }
      case Branch(BGE) =>
        if Signed(64, t.registers.Get(rs1)) >= Signed(64, t.registers.Get(rs2)) {
          t.programCounter := Wrap64(t.programCounter + instr.Imm());
        }
      case Branch(BLTU) =>
        if t.registers.Get(rs1) < t.registers.Get(rs2) {
          t.programCounter := Wrap64(t.programCounter + instr.Imm());
        }
      case Branch(BGEU) =>
        if t.registers.Get(rs1) >= t.registers.Get(rs2) {
          t.programCounter := Wrap64(t.programCounter + instr.Imm());
        }
      case _ =>
        supported := false;
    }
  }
}
