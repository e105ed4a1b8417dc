/** What holds in every run of a decoded program. Decoding yields well-formed instructions only, and the
    ranges and parities of their immediates carry over to whole runs. */
module Runs {
  import opened Bits
  import opened Instructions
  import opened Codec
  import opened Machine
  import opened Program

  predicate AllWellFormed(p: seq<Instruction>) {
    forall i :: i in p ==> WellFormed(i)
  }

  lemma WellFormedRegisters(p: seq<Instruction>)
    requires AllWellFormed(p)
    ensures RegistersExist(p)
  {
  }

  lemma DecodedIsWellFormed(bytes: seq<Byte>)
    requires DecodeProgram(bytes).Success?
    ensures AllWellFormed(DecodeProgram(bytes).value) && RegistersExist(DecodeProgram(bytes).value)
  {
    hide WellFormed, DecodeProgram;
    EncodeAfterDecodeProgram(bytes);
    WellFormedRegisters(DecodeProgram(bytes).value);
  }

  // ----- an even program counter and a zero x0 -----

  predicate Sound(s: State) {
    s.programCounter % 2 == 0 && s.registers[0] == 0
  }

  /** Branch and jump offsets are even and in the ranges of section 2.5. */
  lemma Offsets(i: Instruction)
    requires WellFormed(i)
    ensures i.RegistersExist()
    ensures i.kind == JAL ==> -0x10_0000 <= i.Imm() <= 0xf_fffe && i.Imm() % 2 == 0
    ensures i.kind.Branch? ==> -0x1000 <= i.Imm() <= 0xffe && i.Imm() % 2 == 0
  {
  }

  lemma WrapEven(x: int)
    ensures Wrap64(x) % 2 == x % 2
  {
    var q, r := x / TWO_64, x % TWO_64;
    DivModUnique(x, 2, q * 0x8000_0000_0000_0000 + r / 2, r % 2);
  }

  lemma StepKeepsSound(i: Instruction, s: State)
    requires WellFormed(i) && Sound(s)
    ensures Sound(Step(i, s))
  {
    hide WellFormed, Wrap64, Taken, ClearBit;
    Offsets(i);
    var executed := Execute(i, Counted(s));
    WrapEven(s.programCounter + i.Imm());
    WrapEven(executed.programCounter + 4);
  }

  /** Every state that a run of a decoded program reaches from a sound state is sound. */
  lemma {:induction false} RunKeepsSound(p: seq<Instruction>, s: State, budget: nat)
    requires AllWellFormed(p) && RegistersExist(p) && Sound(s)
    ensures Sound(Run(p, s, budget).state)
    decreases budget
  {
    hide WellFormed, Step;
    if s.programCounter / 4 < |p| && budget > 0 && Supported(p[s.programCounter / 4].kind) {
      StepKeepsSound(p[s.programCounter / 4], s);
      RunKeepsSound(p, Step(p[s.programCounter / 4], s), budget - 1);
    }
  }

  /** From bytes to runs: whatever bytes were decoded, and however long the program runs on a fresh thread,
      the program counter is even, x0 is zero and every register index is below 32. */
  lemma DecodedRunsAreSound(bytes: seq<Byte>, budget: nat)
    requires DecodeProgram(bytes).Success?
    ensures var p := DecodeProgram(bytes).value;
      RegistersExist(p) && Sound(Run(p, FRESH, budget).state)
  {
    hide DecodeProgram, WellFormed, Run;
    DecodedIsWellFormed(bytes);
    RunKeepsSound(DecodeProgram(bytes).value, FRESH, budget);
  }

  // ----- termination -----

  /** No JALR, and no jump or branch offset below `least`. */
  predicate NoneBelow(p: seq<Instruction>, least: int) {
    forall i :: i in p ==> i.kind != JALR && (i.kind == JAL || i.kind.Branch? ==> i.Imm() >= least)
  }

  lemma ForwardStep(i: Instruction, s: State, n: nat, advance: nat)
    requires WellFormed(i) && Supported(i.kind) && i.kind != JALR && advance <= 4
    requires i.kind == JAL || i.kind.Branch? ==> i.Imm() + 4 >= advance
    requires n < 0x2000_0000_0000_0000 && s.programCounter < 4 * n
    ensures s.programCounter + advance <= Step(i, s).programCounter <= s.programCounter + 0x10_0002
  {
    hide Wrap64, WellFormed, Taken;
    Offsets(i);
    WrapSum(s.programCounter + i.Imm(), 4);
    NoWrap(s.programCounter + 4);
    NoWrap(s.programCounter + i.Imm() + 4);
  }

  lemma NoWrap(x: int)
    ensures 0 <= x < TWO_64 ==> Wrap64(x) == x
  {
  }

  /** The passes that can still be made when each one advances by 2, or by 4, at the least. */
  function PassesLeft(p: seq<Instruction>, s: State, advance: nat): nat
    requires advance == 2 || advance == 4
  {
    var end := 4 * |p|;
    if s.programCounter >= end then 0
    else if advance == 2 then (end - s.programCounter + 1) / 2
    else |p| - s.programCounter / 4
  }

  lemma {:induction false} AdvancingTerminates(p: seq<Instruction>, s: State, advance: nat, budget: nat)
    requires advance == 2 || advance == 4
    requires AllWellFormed(p) && RegistersExist(p) && NoneBelow(p, advance - 4) && |p| < 0x2000_0000_0000_0000
    requires budget >= PassesLeft(p, s, advance)
    ensures var r := Run(p, s, budget);
      && r.status != Running && r.fetched <= PassesLeft(p, s, advance)
      && r.state.programCounter >= s.programCounter + advance * (if r.status == Threw then r.fetched - 1 else r.fetched)
      && (s.programCounter < 4 * |p| ==> r.state.programCounter < 4 * |p| + 0x10_0004)
    decreases budget
  {
    hide WellFormed, Step;
    var k := s.programCounter / 4;
    if k < |p| && Supported(p[k].kind) {
      var next := Step(p[k], s);
      assert s.programCounter < 4 * |p| && p[k] in p;
      ForwardStep(p[k], s, |p|, advance);
      AdvancingTerminates(p, next, advance, budget - 1);
    }
  }

  /** A program without JALR whose jump and branch offsets are above -4 stops, by returning or throwing. The program
      counter only grows, by at least 2 a completed pass, never wraps, and ends below 4n + 2^20 + 4 when it starts
      below 4n; so there are at most half as many passes as bytes left. */
  lemma ForwardTerminates(p: seq<Instruction>, s: State, budget: nat)
    requires AllWellFormed(p) && RegistersExist(p) && NoneBelow(p, -3) && |p| < 0x2000_0000_0000_0000
    requires budget >= PassesLeft(p, s, 2)
    ensures var r := Run(p, s, budget);
      && r.status != Running && r.fetched <= PassesLeft(p, s, 2)
      && r.state.programCounter >= s.programCounter + 2 * (if r.status == Threw then r.fetched - 1 else r.fetched)
      && (s.programCounter < 4 * |p| ==> r.state.programCounter < 4 * |p| + 0x10_0004)
  {
    hide WellFormed, Run;
    forall i | i in p { Offsets(i); }
    AdvancingTerminates(p, s, 2, budget);
  }

  /** Without negative offsets, it advances by at least 4 a pass and makes at most one pass an instruction left. */
  lemma NonnegativeTerminates(p: seq<Instruction>, s: State, budget: nat)
    requires AllWellFormed(p) && RegistersExist(p) && NoneBelow(p, 0) && |p| < 0x2000_0000_0000_0000
    requires budget >= PassesLeft(p, s, 4)
    ensures var r := Run(p, s, budget);
      && r.status != Running && r.fetched <= PassesLeft(p, s, 4)
      && r.state.programCounter >= s.programCounter + 4 * (if r.status == Threw then r.fetched - 1 else r.fetched)
      && (s.programCounter < 4 * |p| ==> r.state.programCounter < 4 * |p| + 0x10_0004)
  {
    AdvancingTerminates(p, s, 4, budget);
  }

  // ----- the threshold -----

  /** `before` instructions that only count, then a JAL by `offset`. */
  function LoopingProgram(before: nat, offset: int): (p: seq<Instruction>)
    ensures |p| == before + 1
  {
    seq(before, _ => BLANK) + [Instruction(JAL, Immediate(offset), 0, 0, 0)]
  }

  lemma LoopingIsWellFormed(before: nat, offset: int)
    requires -0x10_0000 <= offset <= -4 && offset % 2 == 0
    ensures AllWellFormed(LoopingProgram(before, offset)) && RegistersExist(LoopingProgram(before, offset))
  {
    assert WellFormed(BLANK) && WellFormed(Instruction(JAL, Immediate(offset), 0, 0, 0));
    hide WellFormed;
    assert forall i :: i in LoopingProgram(before, offset) ==>
      i == BLANK || i == Instruction(JAL, Immediate(offset), 0, 0, 0);
  }

  /** A jump back by 4 or more can run forever: with enough instructions before it, a JAL by any even offset from -4
      down keeps the program counter inside the program, whatever its start. */
  lemma {:induction false} JumpBackSpins(before: nat, offset: int, s: State, budget: nat)
    requires -0x10_0000 <= offset <= -4 && offset % 2 == 0
    requires 4 * before >= 0 - offset - 4 && before < 0x1000_0000_0000_0000
    requires s.programCounter < 4 * before + 4
    ensures RegistersExist(LoopingProgram(before, offset))
    ensures Run(LoopingProgram(before, offset), s, budget).status == Running
    decreases budget
  {
    LoopingIsWellFormed(before, offset);
    WellFormedRegisters(LoopingProgram(before, offset));
    hide WellFormed, RegistersExist, AllWellFormed;
    if budget > 0 {
      var i := LoopingProgram(before, offset)[s.programCounter / 4];
      LoopingStep(before, offset, s);
      JumpBackSpins(before, offset, Step(i, s), budget - 1);
    }
  }

  lemma LoopingStep(before: nat, offset: int, s: State)
    requires -0x10_0000 <= offset <= -4 && 4 * before >= 0 - offset - 4 && before < 0x1000_0000_0000_0000
    requires s.programCounter < 4 * before + 4
    ensures var i := LoopingProgram(before, offset)[s.programCounter / 4];
      i.RegistersExist() && Supported(i.kind) && Step(i, s).programCounter < 4 * before + 4
  {
    hide Wrap64, Taken;
    var pc := s.programCounter;
    WrapSum(pc + offset, 4);
    NoWrap(pc + 4);
    NoWrap(pc + offset + 4);
  }

  ghost predicate Stops(p: seq<Instruction>, s: State)
    requires RegistersExist(p)
  {
    exists budget: nat :: Run(p, s, budget).status != Running
  }

  /** The programs that can be decoded, hold no JALR, and jump by no offset below `least`. */
  ghost predicate Bounded(p: seq<Instruction>, least: int) {
    AllWellFormed(p) && RegistersExist(p) && NoneBelow(p, least) && |p| < 0x2000_0000_0000_0000
  }

  /** The threshold is exact: a lower bound on the offsets makes all runs stop if and only if it is above -4. */
  lemma ThresholdExactly(least: int)
    ensures (forall p: seq<Instruction>, s: State :: Bounded(p, least) ==> Stops(p, s)) <==> least > -4
  {
    hide AllWellFormed, RegistersExist, NoneBelow, Run, LoopingProgram;
    if least > -4 {
      forall p: seq<Instruction>, s: State | Bounded(p, least)
        ensures Stops(p, s)
      {
        HigherBound(p, least, -3);
        ForwardTerminates(p, s, PassesLeft(p, s, 2));
      }
    } else {
      var p := LoopingProgram(0, -4);
      LoopingIsWellFormed(0, -4);
      LoopingIsBounded(least);
      forall budget: nat
        ensures Run(p, FRESH, budget).status == Running
      {
        JumpBackSpins(0, -4, FRESH, budget);
      }
      assert Bounded(p, least) && !Stops(p, FRESH);
    }
  }

  lemma HigherBound(p: seq<Instruction>, high: int, low: int)
    requires NoneBelow(p, high) && low <= high
    ensures NoneBelow(p, low)
  {
  }

  lemma LoopingIsBounded(least: int)
    requires least <= -4
    ensures NoneBelow(LoopingProgram(0, -4), least)
  {
    assert forall i :: i in LoopingProgram(0, -4) ==> i == Instruction(JAL, Immediate(-4), 0, 0, 0);
  }
}
