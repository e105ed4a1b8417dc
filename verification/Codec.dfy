/** What decoding means: the instruction that the fields of an encoding stand for, the encoder that
    inverts it, and exactly what decoding forgets.

    The source has no encoder; this one is written for the table as coded. */
module Codec {
  import opened Bits
  import opened Encoding
  import opened Instructions
  import opened Results

  // ----- from fields to an instruction -----

  /** The instruction of type `t` that the fields stand for. */
  function Build(t: Type, f: Fields): Instruction {
    BuildAs(PatternOf(t).format, t, f)
  }

  function BuildAs(format: Format, t: Type, f: Fields): Instruction {
    match format
    case FormatR => Instruction(t, Immediate(0), f.rd, f.rs1, f.rs2)
    case FormatFP => Instruction(t, FloatOp(f.funct3, 0), f.rd, f.rs1, f.rs2)
    case FormatR4 => Instruction(t, FloatOp(f.funct3, f.funct7 / 4), f.rd, f.rs1, f.rs2)
    case FormatAMO => Instruction(t, Immediate(f.funct7 % 4), f.rd, f.rs1, f.rs2)
    case FormatI => Instruction(t, Immediate(TwosComplement(0x800, RawI(f))), f.rd, f.rs1, 0)
    case FormatShift => Instruction(t, Immediate(TwosComplement(0x800, RawShift(f))), f.rd, f.rs1, 0)
    case FormatFence => Instruction(t, Immediate(RawI(f)), f.rd, f.rs1, 0)
    case FormatSystem => Instruction(t, Immediate(0), f.rd, f.rs1, 0)
    case FormatS => Instruction(t, Immediate(TwosComplement(0x800, RawS(f))), 0, f.rs1, f.rs2)
    case FormatB => Instruction(t, Immediate(TwosComplement(0x1000, RawB(f))), 0, f.rs1, f.rs2)
    case FormatU => Instruction(t, Immediate(TwosComplement(0x8000_0000, RawU(f))), f.rd, 0, 0)
    case FormatJ => Instruction(t, Immediate(TwosComplement(0x10_0000, RawJ(f))), f.rd, 0, 0)
  }

  /** The immediate pattern of a right shift, its bit 10 cleared. */
  function RawShift(f: Fields): nat {
    f.rs2 + 32 * (f.funct7 % 32 + 64 * (f.funct7 / 64))
  }

  // ----- well-formed instructions -----

  predicate IsSigned(signWeight: nat, step: nat, value: int)
    requires step > 0
  {
    0 - signWeight <= value < signWeight && value % step == 0
  }

  /** The instructions that some encoding stands for: registers exist, members that the format does
      not have are zero, and the payload is of the right kind and in range. */
  predicate WellFormed(i: Instruction) {
    && i.RegistersExist()
    && LayoutOk(PatternOf(i.kind).format, i)
    && ConstraintsOk(PatternOf(i.kind), i)
  }

  predicate LayoutOk(format: Format, i: Instruction) {
    match format
    case FormatR => i.payload == Immediate(0)
    case FormatFP => i.payload.FloatOp? && i.payload.roundingMode < 8 && i.payload.sourceRegister3 == 0
    case FormatR4 => i.payload.FloatOp? && i.payload.roundingMode < 8 && i.payload.sourceRegister3 < 32
    case FormatAMO => i.payload.Immediate? && 0 <= i.payload.value < 4
    case FormatI => i.payload.Immediate? && IsSigned(0x800, 1, i.payload.value) && i.sourceRegister2 == 0
    case FormatShift =>
      && i.payload.Immediate? && IsSigned(0x800, 1, i.payload.value) && i.payload.value % 0x1000 / 0x400 % 2 == 0
      && i.sourceRegister2 == 0
    case FormatFence => i.payload.Immediate? && 0 <= i.payload.value < 0x1000 && i.sourceRegister2 == 0
    case FormatSystem => i.payload == Immediate(0) && i.sourceRegister2 == 0
    case FormatS => i.payload.Immediate? && IsSigned(0x800, 1, i.payload.value) && i.destinationRegister == 0
    case FormatB => i.payload.Immediate? && IsSigned(0x1000, 2, i.payload.value) && i.destinationRegister == 0
    case FormatU =>
      && i.payload.Immediate? && IsSigned(0x8000_0000, 0x1000, i.payload.value)
      && i.sourceRegister1 == 0 && i.sourceRegister2 == 0
    case FormatJ =>
      && i.payload.Immediate? && IsSigned(0x10_0000, 2, i.payload.value)
      && i.sourceRegister1 == 0 && i.sourceRegister2 == 0
  }

  /** Where the table constrains a field that the instruction keeps. */
  predicate ConstraintsOk(p: Pattern, i: Instruction)
    requires LayoutOk(p.format, i)
  {
    match p.format
    case FormatFP => p.funct3.Admits(i.payload.roundingMode) && p.rs2.Admits(i.sourceRegister2)
    case FormatFence =>
      && (i.payload.value == 0x833 <==> i.kind == MiscMem(FENCETSO))
      && (i.payload.value == 0x10 <==> i.kind == MiscMem(PAUSE))
    case _ => true
  }

  // ----- from an instruction back to fields -----

  /** The fields of an encoding of a well-formed instruction, with a zero wherever the decoder does not look. */
  function FieldsOf(i: Instruction): Fields
    requires WellFormed(i)
  {
    FieldsAs(PatternOf(i.kind), OpcodeOf(i.kind), i)
  }

  function FieldsAs(p: Pattern, opcode: nat, i: Instruction): Fields
    requires LayoutOk(p.format, i)
  {
    var rd, rs1, rs2 := i.destinationRegister, i.sourceRegister1, i.sourceRegister2;
    var funct3, operation := p.funct3.Fixed(), p.operation.Fixed();
    match p.format
    case FormatR => Fields(opcode, rd, funct3, rs1, rs2, operation)
    case FormatFP => Fields(opcode, rd, i.payload.roundingMode, rs1, rs2, operation)
    case FormatR4 => Fields(opcode, rd, i.payload.roundingMode, rs1, rs2, 4 * i.payload.sourceRegister3 + operation)
    case FormatAMO => Fields(opcode, rd, funct3, rs1, rs2, 4 * operation + i.payload.value)
    case FormatI =>
      var u := i.payload.value % 0x1000;
      Fields(opcode, rd, funct3, rs1, u % 32, u / 32)
    case FormatShift =>
      var u := i.payload.value % 0x1000;
      Fields(opcode, rd, funct3, rs1, u % 32, u / 32 + 32 * operation)
    case FormatFence => Fields(opcode, rd, funct3, rs1, i.payload.value % 32, i.payload.value / 32)
    case FormatSystem => Fields(opcode, rd, funct3, rs1, p.rs2.Fixed(), operation)
    case FormatS =>
      var u := i.payload.value % 0x1000;
      Fields(opcode, u % 32, funct3, rs1, rs2, u / 32)
    case FormatB =>
      var u := i.payload.value % 0x2000;
      Fields(opcode, 2 * (u / 2 % 16) + u / 0x800 % 2, funct3, rs1, rs2, u / 32 % 64 + 64 * (u / 0x1000))
    case FormatU =>
      var u := i.payload.value % 0x1_0000_0000 / 0x1000;
      Fields(opcode, rd, u % 8, u / 8 % 32, u / 0x100 % 32, u / 0x2000)
    case FormatJ =>
      var u := i.payload.value % 0x20_0000;
      Fields(opcode, rd, u / 0x1000 % 8, u / 0x8000 % 32,
        2 * (u / 2 % 16) + u / 0x800 % 2, u / 32 % 64 + 64 * (u / 0x10_0000))
  }

  /** The fields with everything that decoding loses set to zero: funct3 of a JALR and the CSR number. */
  function ForgetFields(f: Fields): Fields {
    if f.opcode == OPCODE_JALR then f.(funct3 := 0)
    else if f.opcode == OPCODE_SYSTEM && f.funct3 != 0 then f.(rs2 := 0, funct7 := 0)
    else f
  }

  // ----- arithmetic of the scattered immediates -----

  lemma TwosComplementRange(signWeight: nat, pattern: nat)
    requires 0 < signWeight && pattern < 2 * signWeight
    ensures 0 - signWeight <= TwosComplement(signWeight, pattern) < signWeight
    ensures TwosComplement(signWeight, pattern) % (2 * signWeight) == pattern
  {
    var value := TwosComplement(signWeight, pattern);
    DivModUnique(value, 2 * signWeight, if pattern < signWeight then 0 else -1, pattern);
  }

  lemma TwosComplementBack(signWeight: nat, value: int)
    requires 0 < signWeight && 0 - signWeight <= value < signWeight
    ensures var pattern := value % (2 * signWeight);
      0 <= pattern < 2 * signWeight && TwosComplement(signWeight, pattern) == value
  {
    var wraps := if value < 0 then 1 else 0;
    DivModUnique(value, 2 * signWeight, -wraps, value + wraps * (2 * signWeight));
  }

  /** A number put together from pieces of 5, 6, 1 and 1 bits in the order of the B format comes apart again. */
  lemma BranchPieces(a: nat, b: nat, c: nat, d: nat)
    requires a < 16 && b < 64 && c < 2 && d < 2
    ensures var u := 2 * a + 32 * b + 0x800 * c + 0x1000 * d;
      u / 2 % 16 == a && u / 32 % 64 == b && u / 0x800 % 2 == c && u / 0x1000 == d
  {
    var u := 2 * a + 32 * b + 0x800 * c + 0x1000 * d;
    DivModUnique(u, 0x800, c + 2 * d, 2 * a + 32 * b);
    DivModUnique(u, 32, b + 64 * (c + 2 * d), 2 * a);
    DivModUnique(u, 2, a + 16 * (b + 64 * (c + 2 * d)), 0);
  }

  lemma BranchPiecesBack(u: nat)
    requires u < 0x2000 && u % 2 == 0
    ensures u == 2 * (u / 2 % 16) + 32 * (u / 32 % 64) + 0x800 * (u / 0x800 % 2) + 0x1000 * (u / 0x1000)
  {
    DivDiv(u, 2, 16);
    DivDiv(u, 32, 64);
    DivDiv(u, 0x800, 2);
  }

  lemma JumpPieces(a: nat, b: nat, c: nat, g: nat, h: nat, d: nat)
    requires a < 16 && b < 64 && c < 2 && g < 8 && h < 32 && d < 2
    ensures var u := 2 * (a + 16 * b) + 0x800 * c + 0x1000 * (g + 8 * h) + 0x10_0000 * d;
      u / 2 % 16 == a && u / 32 % 64 == b && u / 0x800 % 2 == c
      && u / 0x1000 % 8 == g && u / 0x8000 % 32 == h && u / 0x10_0000 == d
  {
    var u := 2 * (a + 16 * b) + 0x800 * c + 0x1000 * (g + 8 * h) + 0x10_0000 * d;
    Digit(u, 0x10_0000, 2, u - 0x10_0000 * d, d, 0);
    Digit(u, 0x8000, 32, u - 0x8000 * (h + 32 * d), h, d);
    Digit(u, 0x1000, 8, u - 0x1000 * (g + 8 * (h + 32 * d)), g, h + 32 * d);
    Digit(u, 0x800, 2, 2 * (a + 16 * b), c, g + 8 * (h + 32 * d));
    Digit(u, 32, 64, 2 * a, b, c + 2 * (g + 8 * (h + 32 * d)));
    Digit(u, 2, 16, 0, a, b + 64 * (c + 2 * (g + 8 * (h + 32 * d))));
  }

  lemma Digit(u: nat, place: int, base: int, low: nat, digit: nat, high: nat)
    requires low < place && digit < base && u == place * (digit + base * high) + low
    ensures u / place % base == digit && u / place == digit + base * high
  {
    DivModUnique(u, place, digit + base * high, low);
    DivModUnique(digit + base * high, base, high, digit);
  }

  lemma JumpPiecesBack(u: nat)
    requires u < 0x20_0000 && u % 2 == 0
    ensures u == 2 * (u / 2 % 16 + 16 * (u / 32 % 64)) + 0x800 * (u / 0x800 % 2)
                 + 0x1000 * (u / 0x1000 % 8 + 8 * (u / 0x8000 % 32)) + 0x10_0000 * (u / 0x10_0000)
  {
    DivDiv(u, 2, 16);
    DivDiv(u, 32, 64);
    DivDiv(u, 0x800, 2);
    DivDiv(u, 0x1000, 8);
    DivDiv(u, 0x8000, 32);
  }

  lemma UpperPieces(g: nat, h: nat, k: nat, m: nat)
    requires g < 8 && h < 32 && k < 32
    ensures var u := g + 8 * (h + 32 * (k + 32 * m));
      u % 8 == g && u / 8 % 32 == h && u / 0x100 % 32 == k && u / 0x2000 == m
  {
    var u := g + 8 * (h + 32 * (k + 32 * m));
    DivModUnique(u, 8, h + 32 * (k + 32 * m), g);
    Digit(u, 8, 32, g, h, k + 32 * m);
    Digit(u, 0x100, 32, g + 8 * h, k, m);
    DivModUnique(u, 0x2000, m, g + 8 * h + 0x100 * k);
  }

  lemma UpperPiecesBack(u: nat)
    ensures u == u % 8 + 8 * (u / 8 % 32 + 32 * (u / 0x100 % 32 + 32 * (u / 0x2000)))
  {
    DivDiv(u, 8, 32);
    DivDiv(u, 0x100, 32);
  }

  // The same, about the fields themselves.

  lemma BranchRaw(f: Fields)
    requires f.Valid()
    ensures var u := RawB(f);
      && u < 0x2000 && u % 2 == 0
      && f.rd == 2 * (u / 2 % 16) + u / 0x800 % 2 && f.funct7 == u / 32 % 64 + 64 * (u / 0x1000)
  {
    BranchPieces(f.rd / 2, f.funct7 % 64, f.rd % 2, f.funct7 / 64);
  }

  lemma BranchRawBack(u: nat, f: Fields)
    requires u < 0x2000 && u % 2 == 0
    requires f.rd == 2 * (u / 2 % 16) + u / 0x800 % 2 && f.funct7 == u / 32 % 64 + 64 * (u / 0x1000)
    ensures f.rd < 32 && f.funct7 < 128 && RawB(f) == u
  {
    BranchPiecesBack(u);
    DivModUnique(f.rd, 2, u / 2 % 16, u / 0x800 % 2);
    DivModUnique(f.funct7, 64, u / 0x1000, u / 32 % 64);
  }

  lemma UpperRaw(f: Fields)
    requires f.Valid()
    ensures var u := RawU(f) / 0x1000;
      && RawU(f) < 0x1_0000_0000 && RawU(f) % 0x1000 == 0
      && f.funct3 == u % 8 && f.rs1 == u / 8 % 32 && f.rs2 == u / 0x100 % 32 && f.funct7 == u / 0x2000
  {
    DivModUnique(RawU(f), 0x1000, AboveRd(f), 0);
    UpperPieces(f.funct3, f.rs1, f.rs2, f.funct7);
  }

  lemma UpperMultiple(value: int)
    requires -0x8000_0000 <= value < 0x8000_0000 && value % 0x1000 == 0
    ensures value % 0x1_0000_0000 % 0x1000 == 0
  {
    var q := value / 0x1000;
    if value < 0 {
      DivModUnique(value, 0x1_0000_0000, -1, 0x1000 * (q + 0x10_0000));
    }
  }

  lemma UpperRawBack(pattern: nat, f: Fields)
    requires pattern < 0x1_0000_0000 && pattern % 0x1000 == 0
    requires var u := pattern / 0x1000;
      f.funct3 == u % 8 && f.rs1 == u / 8 % 32 && f.rs2 == u / 0x100 % 32 && f.funct7 == u / 0x2000
    ensures f.funct7 < 128 && RawU(f) == pattern
  {
    UpperPiecesBack(pattern / 0x1000);
  }

  lemma JumpRaw(f: Fields)
    requires f.Valid()
    ensures var u := RawJ(f);
      && u < 0x20_0000 && u % 2 == 0
      && f.funct3 == u / 0x1000 % 8 && f.rs1 == u / 0x8000 % 32
      && f.rs2 == 2 * (u / 2 % 16) + u / 0x800 % 2 && f.funct7 == u / 32 % 64 + 64 * (u / 0x10_0000)
  {
    JumpPieces(f.rs2 / 2, f.funct7 % 64, f.rs2 % 2, f.funct3, f.rs1, f.funct7 / 64);
  }

  lemma JumpRawBack(u: nat, f: Fields)
    requires u < 0x20_0000 && u % 2 == 0
    requires f.funct3 == u / 0x1000 % 8 && f.rs1 == u / 0x8000 % 32
    requires f.rs2 == 2 * (u / 2 % 16) + u / 0x800 % 2 && f.funct7 == u / 32 % 64 + 64 * (u / 0x10_0000)
    ensures f.rs2 < 32 && f.funct7 < 128 && RawJ(f) == u
  {
    JumpPiecesBack(u);
    DivModUnique(f.rs2, 2, u / 2 % 16, u / 0x800 % 2);
    DivModUnique(f.funct7, 64, u / 0x10_0000, u / 32 % 64);
  }

  lemma TwosComplementStep(signWeight: nat, step: int, pattern: nat)
    requires step == 2 || step == 0x1000
    requires pattern % step == 0 && signWeight % step == 0
    ensures TwosComplement(signWeight, pattern) % step == 0
  {
  }

  // ----- the two directions, format by format -----

  /** How the table's constraints fit the formats: what an instruction does not keep is fixed, except
      for the two kinds of field that decoding loses. */
  ghost predicate Shaped(t: Type, p: Pattern) {
    && (p.funct3.Is? ==> p.funct3.value < 8)
    && (p.operation.Is? ==> p.operation.value < 0x80)
    && (p.rs2.Is? ==> p.rs2.value < 32)
    && match p.format
       case FormatR => p.funct3.Is? && p.operation.Is? && p.rs2.Any?
       case FormatFP => p.operation.Is? && !p.funct3.NonZero?
       case FormatR4 => p.funct3.Any? && p.operation.Is? && p.operation.value < 4 && p.rs2.Any?
       case FormatAMO => p.funct3.Is? && p.operation.Is? && p.operation.value < 32 && p.rs2.Any?
       case FormatI => (if t == JALR then p.funct3.Any? else p.funct3.Is?) && p.operation.Any? && p.rs2.Any?
       case FormatShift => p.funct3.Is? && p.operation.Is? && p.operation.value < 2 && p.rs2.Any?
       case FormatFence =>
         && p.funct3 == Is(0)
         && (t == MiscMem(FENCE) || t == MiscMem(FENCETSO) || t == MiscMem(PAUSE))
         && (t == MiscMem(FENCE) ==> p.operation.Any? && p.rs2.Any?)
         && (t == MiscMem(FENCETSO) ==> p.operation == Is(0x41) && p.rs2 == Is(0x13))
         && (t == MiscMem(PAUSE) ==> p.operation == Is(0) && p.rs2 == Is(0x10))
       case FormatSystem =>
         && p.funct3.Is?
         && if p.funct3.value == 0 then p.operation.Is? && p.rs2.Is? else p.operation.Any? && p.rs2.Any?
       case FormatS | FormatB => p.funct3.Is? && p.operation.Any? && p.rs2.Any?
       case FormatU | FormatJ => p.funct3.Any? && p.operation.Any? && p.rs2.Any?
  }

  lemma TableShaped(t: Type)
    ensures Shaped(t, PatternOf(t)) && OpcodeOf(t) < 128
    ensures OpcodeOf(t) == OPCODE_JALR <==> t == JALR
    ensures OpcodeOf(t) == OPCODE_SYSTEM <==> PatternOf(t).format == FormatSystem
    ensures t == MiscMem(FENCE) || t == MiscMem(FENCETSO) || t == MiscMem(PAUSE) <==> PatternOf(t).format == FormatFence
  {
    hide OpcodeOf, Shaped;
    OpcodesDistinct(t);
    PatternsShaped(t);
  }

  lemma OpcodesDistinct(t: Type)
    ensures OpcodeOf(t) < 128
    ensures OpcodeOf(t) == OPCODE_JALR <==> t == JALR
    ensures OpcodeOf(t) == OPCODE_SYSTEM <==> t.System?
  {
  }

  lemma PatternsShaped(t: Type)
    ensures Shaped(t, PatternOf(t))
  {
    hide PatternOf, Shaped;
    match t
    case OpFP(opFP, precision) => OpFPShaped(opFP, precision);
    case Op(op) => OpShaped(op);
    case _ => OthersShaped(t);
  }

  lemma OpFPShaped(t: OpFPType, p: Precision)
    ensures Shaped(OpFP(t, p), PatternOf(OpFP(t, p)))
  {
  }

  lemma OpShaped(t: OpType)
    ensures Shaped(Op(t), PatternOf(Op(t)))
  {
  }

  lemma OthersShaped(t: Type)
    requires !t.OpFP? && !t.Op?
    ensures Shaped(t, PatternOf(t))
  {
  }

  /** Fields that a pattern admits. */
  ghost predicate Fits(t: Type, p: Pattern, f: Fields) {
    f.Valid() && Shaped(t, p) && p.funct3.Admits(f.funct3) && p.operation.Admits(Operation(p.format, f.funct7))
    && p.rs2.Admits(f.rs2)
  }

  /** Building an instruction and laying it out again returns the fields, except funct3 where the pattern
      does not fix it (JALR) and rs2 and funct7 where it does not fix them (CSR). */
  lemma LayoutForward(t: Type, p: Pattern, f: Fields)
    requires Fits(t, p, f)
    ensures LayoutOk(p.format, BuildAs(p.format, t, f))
    ensures FieldsAs(p, f.opcode, BuildAs(p.format, t, f)) ==
      if p.format == FormatI && p.funct3.Any? then f.(funct3 := 0)
      else if p.format == FormatSystem && p.rs2.Any? then f.(rs2 := 0, funct7 := 0)
      else f
  {
    hide BuildAs, FieldsAs, LayoutOk;
    match p.format
    case FormatR | FormatFP | FormatR4 | FormatAMO | FormatFence | FormatSystem => PlainForward(t, p, f);
    case FormatI => ImmediateForward(t, p, f);
    case FormatS => StoreForward(t, p, f);
    case FormatShift => ShiftForward(t, p, f);
    case FormatB => BranchForward(t, p, f);
    case FormatU => UpperForward(t, p, f);
    case FormatJ => JumpForward(t, p, f);
  }

  lemma PlainForward(t: Type, p: Pattern, f: Fields)
    requires Fits(t, p, f) && p.format in {FormatR, FormatFP, FormatR4, FormatAMO, FormatFence, FormatSystem}
    ensures LayoutOk(p.format, BuildAs(p.format, t, f))
    ensures FieldsAs(p, f.opcode, BuildAs(p.format, t, f)) ==
      if p.format == FormatSystem && p.rs2.Any? then f.(rs2 := 0, funct7 := 0) else f
  {
  }

  lemma ImmediateForward(t: Type, p: Pattern, f: Fields)
    requires Fits(t, p, f) && p.format == FormatI
    ensures LayoutOk(FormatI, BuildAs(FormatI, t, f))
    ensures FieldsAs(p, f.opcode, BuildAs(FormatI, t, f)) == if p.funct3.Any? then f.(funct3 := 0) else f
  {
    TwosComplementRange(0x800, RawI(f));
    hide TwosComplement;
  }

  lemma StoreForward(t: Type, p: Pattern, f: Fields)
    requires Fits(t, p, f) && p.format == FormatS
    ensures LayoutOk(FormatS, BuildAs(FormatS, t, f)) && FieldsAs(p, f.opcode, BuildAs(FormatS, t, f)) == f
  {
    TwosComplementRange(0x800, RawS(f));
    hide TwosComplement;
  }

  lemma ShiftForward(t: Type, p: Pattern, f: Fields)
    requires Fits(t, p, f) && p.format == FormatShift
    ensures LayoutOk(FormatShift, BuildAs(FormatShift, t, f)) && FieldsAs(p, f.opcode, BuildAs(FormatShift, t, f)) == f
  {
    var a, b, c := f.funct7 % 32, f.funct7 / 32 % 2, f.funct7 / 64;
    DivDiv(f.funct7, 32, 2);
    assert f.funct7 == a + 32 * b + 64 * c && b == p.operation.value;
    TwosComplementRange(0x800, RawShift(f));
    ShiftPieces(f.rs2, a, c);
    hide TwosComplement;
  }

  lemma ShiftPieces(low: nat, a: nat, c: nat)
    requires low < 32 && a < 32 && c < 2
    ensures var u := low + 32 * (a + 64 * c);
      u < 0x1000 && u % 32 == low && u / 32 == a + 64 * c && u / 0x400 % 2 == 0
  {
    var u := low + 32 * (a + 64 * c);
    DivModUnique(u, 32, a + 64 * c, low);
    DivModUnique(u, 0x400, 2 * c, low + 32 * a);
  }

  lemma BranchForward(t: Type, p: Pattern, f: Fields)
    requires Fits(t, p, f) && p.format == FormatB
    ensures LayoutOk(FormatB, BuildAs(FormatB, t, f)) && FieldsAs(p, f.opcode, BuildAs(FormatB, t, f)) == f
  {
    BranchRaw(f);
    TwosComplementRange(0x1000, RawB(f));
    TwosComplementStep(0x1000, 2, RawB(f));
    hide TwosComplement, RawB;
  }

  lemma UpperForward(t: Type, p: Pattern, f: Fields)
    requires Fits(t, p, f) && p.format == FormatU
    ensures LayoutOk(FormatU, BuildAs(FormatU, t, f)) && FieldsAs(p, f.opcode, BuildAs(FormatU, t, f)) == f
  {
    UpperRaw(f);
    TwosComplementRange(0x8000_0000, RawU(f));
    TwosComplementStep(0x8000_0000, 0x1000, RawU(f));
    hide TwosComplement, RawU;
  }

  lemma JumpForward(t: Type, p: Pattern, f: Fields)
    requires Fits(t, p, f) && p.format == FormatJ
    ensures LayoutOk(FormatJ, BuildAs(FormatJ, t, f)) && FieldsAs(p, f.opcode, BuildAs(FormatJ, t, f)) == f
  {
    JumpRaw(f);
    TwosComplementRange(0x10_0000, RawJ(f));
    TwosComplementStep(0x10_0000, 2, RawJ(f));
    hide TwosComplement, RawJ;
  }

  /** An instruction that a pattern allows. */
  ghost predicate Allows(p: Pattern, opcode: nat, i: Instruction) {
    opcode < 128 && i.RegistersExist() && Shaped(i.kind, p) && LayoutOk(p.format, i) && ConstraintsOk(p, i)
  }

  /** Laying an instruction out gives fields that the pattern admits, and building from them returns it. */
  ghost predicate ComesBack(p: Pattern, opcode: nat, i: Instruction)
    requires Allows(p, opcode, i)
  {
    var f := FieldsAs(p, opcode, i);
    && Fits(i.kind, p, f) && f.opcode == opcode
    && BuildAs(p.format, i.kind, f) == i
    && (i.kind == MiscMem(FENCE) && p.format == FormatFence ==> !IsSpecialFence(f))
    && (p.funct3.Any? && p.format == FormatI ==> f.funct3 == 0)
    && (p.format == FormatSystem && p.rs2.Any? ==> f.rs2 == 0 && f.funct7 == 0)
  }

  lemma LayoutBackward(p: Pattern, opcode: nat, i: Instruction)
    requires Allows(p, opcode, i)
    ensures ComesBack(p, opcode, i)
  {
    hide ComesBack;
    match p.format
    case FormatR | FormatFP | FormatR4 | FormatAMO | FormatFence | FormatSystem => PlainBackward(p, opcode, i);
    case FormatI | FormatS => ImmediateBackward(p, opcode, i);
    case FormatShift => ShiftBackward(p, opcode, i);
    case FormatB => BranchBackward(p, opcode, i);
    case FormatU => UpperBackward(p, opcode, i);
    case FormatJ => JumpBackward(p, opcode, i);
  }

  lemma PlainBackward(p: Pattern, opcode: nat, i: Instruction)
    requires Allows(p, opcode, i) && p.format in {FormatR, FormatFP, FormatR4, FormatAMO, FormatFence, FormatSystem}
    ensures ComesBack(p, opcode, i)
  {
  }

  lemma ImmediateBackward(p: Pattern, opcode: nat, i: Instruction)
    requires Allows(p, opcode, i) && p.format in {FormatI, FormatS}
    ensures ComesBack(p, opcode, i)
  {
    TwosComplementBack(0x800, i.payload.value);
  }

  lemma ShiftBackward(p: Pattern, opcode: nat, i: Instruction)
    requires Allows(p, opcode, i) && p.format == FormatShift
    ensures ComesBack(p, opcode, i)
  {
    var u := i.payload.value % 0x1000;
    TwosComplementBack(0x800, i.payload.value);
    ShiftPiecesBack(u, p.operation.value);
    hide TwosComplement;
  }

  lemma ShiftPiecesBack(u: nat, b: nat)
    requires u < 0x1000 && u / 0x400 % 2 == 0 && b < 2
    ensures var funct7 := u / 32 + 32 * b;
      && funct7 < 128 && funct7 / 32 % 2 == b
      && u == u % 32 + 32 * (funct7 % 32 + 64 * (funct7 / 64))
  {
    var a, c := u / 32 % 32, u / 0x800;
    DivDiv(u, 32, 32);
    DivDiv(u, 0x400, 2);
    var funct7 := u / 32 + 32 * b;
    assert u / 32 == a + 64 * c;
    DivModUnique(funct7, 32, b + 2 * c, a);
    DivModUnique(funct7, 64, c, a + 32 * b);
  }

  lemma BranchBackward(p: Pattern, opcode: nat, i: Instruction)
    requires Allows(p, opcode, i) && p.format == FormatB
    ensures ComesBack(p, opcode, i)
  {
    TwosComplementBack(0x1000, i.payload.value);
    BranchRawBack(i.payload.value % 0x2000, FieldsAs(p, opcode, i));
    hide TwosComplement, RawB;
  }

  lemma UpperBackward(p: Pattern, opcode: nat, i: Instruction)
    requires Allows(p, opcode, i) && p.format == FormatU
    ensures ComesBack(p, opcode, i)
  {
    TwosComplementBack(0x8000_0000, i.payload.value);
    UpperMultiple(i.payload.value);
    UpperRawBack(i.payload.value % 0x1_0000_0000, FieldsAs(p, opcode, i));
    hide TwosComplement, RawU;
  }

  lemma JumpBackward(p: Pattern, opcode: nat, i: Instruction)
    requires Allows(p, opcode, i) && p.format == FormatJ
    ensures ComesBack(p, opcode, i)
  {
    TwosComplementBack(0x10_0000, i.payload.value);
    JumpRawBack(i.payload.value % 0x20_0000, FieldsAs(p, opcode, i));
    hide TwosComplement, RawJ;
  }

  // ----- decoding and encoding words -----

  /** What the decoder is to return for a word; `Decoder` proves that it does. */
  ghost function Decode(w: Word32): Option<Instruction> {
    if exists t :: Matches(t, Split(w)) then
      var t :| Matches(t, Split(w));
      Some(Build(t, Split(w)))
    else
      None
  }

  lemma DecodeAs(w: Word32, t: Type)
    requires Matches(t, Split(w))
    ensures Decode(w) == Some(Build(t, Split(w)))
  {
    hide Matches, Build;
    var u :| Matches(u, Split(w)) && Decode(w) == Some(Build(u, Split(w)));
    MatchUnique(t, u, Split(w));
  }

  lemma FieldsValid(i: Instruction)
    requires WellFormed(i)
    ensures var f := FieldsOf(i); f.Valid() && Matches(i.kind, f) && Build(i.kind, f) == i && ForgetFields(f) == f
  {
    TableShaped(i.kind);
    LayoutBackward(PatternOf(i.kind), OpcodeOf(i.kind), i);
    hide FieldsAs, BuildAs, PatternOf, OpcodeOf, Shaped, LayoutOk, ConstraintsOk;
  }

  function Encode(i: Instruction): Word32
    requires WellFormed(i)
  {
    FieldsValid(i);
    Join(FieldsOf(i))
  }

  /** The word with the bits that decoding loses cleared: bits 14:12 of a JALR, bits 31:20 of a CSR instruction. */
  function Forget(w: Word32): Word32 {
    if GetOpcode(w) == OPCODE_JALR then ClearFunct3(w)
    else if GetOpcode(w) == OPCODE_SYSTEM && GetFunct3(w) != 0 then w % 0x10_0000
    else w
  }

  function ClearFunct3(w: Word32): Word32 {
    Funct3Weight(w);
    w - 0x1000 * GetFunct3(w)
  }

  lemma Funct3Weight(w: Word32)
    ensures 0x1000 * GetFunct3(w) <= w
  {
    hide GetFunct3;
  }

  lemma ForgetIsForgetFields(w: Word32)
    ensures ForgetFields(Split(w)).Valid() && Forget(w) == Join(ForgetFields(Split(w)))
  {
    hide GetFunct3, GetOpcode;
    var f := Split(w);
    var low := f.opcode + 0x80 * f.rd + 0x1000 * f.funct3 + 0x8000 * f.rs1;
    DivModUnique(w, 0x10_0000, f.rs2 + 32 * f.funct7, low);
  }

  /** Decoding, in full: a word decodes to an instruction exactly when the instruction is well formed and
      its encoding is the word up to the bits that decoding forgets. */
  lemma DecodeExactly(w: Word32, i: Instruction)
    ensures Decode(w) == Some(i) <==> WellFormed(i) && Encode(i) == Forget(w)
  {
    ForgetIsForgetFields(w);
    if WellFormed(i) && Encode(i) == Forget(w) {
      EncodedDecodes(w, i);
    }
    if Decode(w) == Some(i) {
      DecodedEncodes(w, i);
    }
  }

  lemma EncodedDecodes(w: Word32, i: Instruction)
    requires WellFormed(i) && Encode(i) == Forget(w)
    ensures Decode(w) == Some(i)
  {
    hide Forget, FieldsOf, Build, BuildAs, WellFormed, Matches;
    FieldsValid(i);
    ForgetIsForgetFields(w);
    SplitUnique(Forget(w), FieldsOf(i));
    SplitUnique(Forget(w), ForgetFields(Split(w)));
    SameTypeWithForgotten(i.kind, Split(w));
    DecodeAs(w, i.kind);
  }

  /** The forgotten bits decide neither the type nor the instruction. */
  lemma SameTypeWithForgotten(t: Type, f: Fields)
    requires Matches(t, ForgetFields(f))
    ensures Matches(t, f) && Build(t, f) == Build(t, ForgetFields(f))
  {
    TableShaped(t);
    if t == JALR {
      assert PatternOf(JALR) == Pattern(FormatI, Any, Any, Any);
    } else {
      hide PatternOf;
    }
  }

  lemma DecodedEncodes(w: Word32, i: Instruction)
    requires Decode(w) == Some(i)
    ensures WellFormed(i) && Encode(i) == Forget(w)
  {
    hide Forget, FieldsOf, Build, WellFormed, Matches;
    var f := Split(w);
    var t :| Matches(t, f) && i == Build(t, f);
    EncodeAfterDecode(t, f);
    ForgetIsForgetFields(w);
  }

  /** What decodes is well formed, and laying it out gives the fields back but for the forgotten bits. */
  lemma EncodeAfterDecode(t: Type, f: Fields)
    requires f.Valid() && Matches(t, f)
    ensures WellFormed(Build(t, f)) && FieldsOf(Build(t, f)) == ForgetFields(f)
  {
    TableShaped(t);
    LayoutForward(t, PatternOf(t), f);
    BuiltIsAllowed(t, PatternOf(t), f);
    hide FieldsAs, PatternOf, OpcodeOf, LayoutOk, ConstraintsOk;
  }

  lemma BuiltIsAllowed(t: Type, p: Pattern, f: Fields)
    requires Fits(t, p, f) && (t == MiscMem(FENCE) ==> !IsSpecialFence(f))
    requires LayoutOk(p.format, BuildAs(p.format, t, f))
    ensures BuildAs(p.format, t, f).kind == t && BuildAs(p.format, t, f).RegistersExist()
    ensures ConstraintsOk(p, BuildAs(p.format, t, f))
  {
  }

  // ----- what decoding forgets -----

  /** The kernel of decoding: two accepted words decode alike exactly when they are equal, or are both JALR and
      differ only in bits 14:12, or are CSR instructions that agree on bits 19:0, which hold the type. */
  lemma DecodeKernel(v: Word32, w: Word32)
    requires Decode(v).Some? && Decode(w).Some?
    ensures Decode(v) == Decode(w) <==>
      || v == w
      || (GetOpcode(v) == OPCODE_JALR && GetOpcode(w) == OPCODE_JALR && ClearFunct3(v) == ClearFunct3(w))
      || (GetOpcode(v) == OPCODE_SYSTEM && GetFunct3(v) != 0 && v % 0x10_0000 == w % 0x10_0000)
  {
    hide Decode, Encode, WellFormed, Forget;
    DecodeExactly(v, Decode(v).value);
    DecodeExactly(w, Decode(w).value);
    DecodeExactly(w, Decode(v).value);
    ForgetKernel(v, w);
  }

  lemma ForgetKernel(v: Word32, w: Word32)
    ensures Forget(v) == Forget(w) <==>
      || v == w
      || (GetOpcode(v) == OPCODE_JALR && GetOpcode(w) == OPCODE_JALR && ClearFunct3(v) == ClearFunct3(w))
      || (GetOpcode(v) == OPCODE_SYSTEM && GetFunct3(v) != 0 && v % 0x10_0000 == w % 0x10_0000)
  {
    hide GetOpcode, GetFunct3;
    LowFieldsKept(v);
    LowFieldsKept(w);
    SameLowBits(v, w);
  }

  lemma LowFieldsKept(w: Word32)
    ensures GetOpcode(Forget(w)) == GetOpcode(w)
    ensures GetOpcode(w) != OPCODE_JALR ==> GetFunct3(Forget(w)) == GetFunct3(w)
  {
    hide GetOpcode, GetFunct3, Forget;
    ForgetIsForgetFields(w);
    SplitUnique(Forget(w), ForgetFields(Split(w)));
  }

  lemma SameLowBits(v: Word32, w: Word32)
    ensures v % 0x10_0000 == w % 0x10_0000 ==> GetOpcode(v) == GetOpcode(w) && GetFunct3(v) == GetFunct3(w)
  {
    hide GetOpcode, GetFunct3;
    LowBits(v);
    LowBits(w);
    if v % 0x10_0000 == w % 0x10_0000 {
      var f, g := LowFields(v), LowFields(w);
      SplitUnique(v % 0x10_0000, f);
      SplitUnique(v % 0x10_0000, g);
    }
  }

  ghost function LowFields(w: Word32): Fields {
    Split(w).(rs2 := 0, funct7 := 0)
  }

  lemma LowBits(w: Word32)
    ensures w % 0x10_0000 == Join(LowFields(w))
  {
    var f := Split(w);
    DivModUnique(w, 0x10_0000, f.rs2 + 32 * f.funct7, Join(LowFields(w)));
  }

  /** Encoding then decoding gives the instruction back. */
  lemma DecodeEncode(i: Instruction)
    requires WellFormed(i)
    ensures Decode(Encode(i)) == Some(i)
  {
    hide Forget, FieldsOf, WellFormed, Matches, Build, Decode;
    FieldsValid(i);
    SplitUnique(Encode(i), FieldsOf(i));
    DecodeAs(Encode(i), i.kind);
  }

  /** Decoding then encoding gives the word back wherever nothing is lost. */
  lemma EncodeDecode(w: Word32)
    requires Decode(w).Some?
    requires GetOpcode(w) != OPCODE_JALR && (GetOpcode(w) == OPCODE_SYSTEM ==> GetFunct3(w) == 0)
    ensures WellFormed(Decode(w).value) && Encode(Decode(w).value) == w
  {
    hide WellFormed, Encode, Decode;
    DecodeExactly(w, Decode(w).value);
  }
}
