/** The listings of chapter 24 of the RISC-V Unprivileged ISA, for RV64G, and exactly where the decoder departs from
    them. An rm field holds a rounding mode of table 11.1. The rows of FENCE.TSO and PAUSE are those of the editions
    that list them. All numbers are written out here; none is taken from the decoder or its table. */
module Listings {
  import opened Bits
  import opened Encoding
  import opened Instructions
  import opened Codec
  import opened Results

  predicate IsRoundingMode(rm: nat) {
    rm <= 4 || rm == 7
  }

  /** The fields encode an instruction of type `t`, by the row of the listings for it. */
  predicate Listed(t: Type, f: Fields) {
    f.opcode == ListedOpcode(t) && ListedRow(t, f)
  }

  function ListedOpcode(t: Type): nat {
    match t
    case LUI => 0x37 case AUIPC => 0x17 case JAL => 0x6f case JALR => 0x67
    case Branch(_) => 0x63 case Load(_) => 0x03 case Store(_) => 0x23
    case OpImm(_) => 0x13 case OpImm32(_) => 0x1b case Op(_) => 0x33 case Op32(_) => 0x3b
    case MiscMem(_) => 0x0f case System(_) => 0x73 case AMO(_, _) => 0x2f
    case LoadFP(_) => 0x07 case StoreFP(_) => 0x27
    case Fused(FMADD, _) => 0x43 case Fused(FMSUB, _) => 0x47
    case Fused(FNMSUB, _) => 0x4b case Fused(FNMADD, _) => 0x4f
    case OpFP(_, _) => 0x53
  }

  /** The fmt field. */
  function Fmt(precision: Precision): nat {
    match precision case Single => 0 case Double => 1
  }

  predicate ListedRow(t: Type, f: Fields) {
    match t
    case LUI | AUIPC | JAL => true
    case JALR => f.funct3 == 0
    case Branch(branch) => ListedBranch(branch, f.funct3)
    case Load(load) => ListedLoad(load, f.funct3)
    case Store(SB) => f.funct3 == 0
    case Store(SH) => f.funct3 == 1
    case Store(SW) => f.funct3 == 2
    case Store(SD) => f.funct3 == 3
    case OpImm(opImm) => ListedOpImm(opImm, f.funct3, f.funct7)
    case OpImm32(ADDIW) => f.funct3 == 0
    case OpImm32(SLLIW) => f.funct3 == 1 && f.funct7 == 0
    case OpImm32(SRLIW) => f.funct3 == 5 && f.funct7 == 0
    case OpImm32(SRAIW) => f.funct3 == 5 && f.funct7 == 0x20
    case Op(op) => ListedOp(op, f.funct3, f.funct7)
    case Op32(op32) => ListedOp32(op32, f.funct3, f.funct7)
    case MiscMem(FENCE) => f.funct3 == 0 && !(ListedSpecialFence(f) && f.rd == 0 && f.rs1 == 0)
    case MiscMem(FENCETSO) => f.funct3 == 0 && f.funct7 == 0x41 && f.rs2 == 0x13 && f.rd == 0 && f.rs1 == 0
    case MiscMem(PAUSE) => f.funct3 == 0 && f.funct7 == 0 && f.rs2 == 0x10 && f.rd == 0 && f.rs1 == 0
    case MiscMem(FENCEI) => f.funct3 == 1
    case System(ECALL) => f.funct3 == 0 && f.funct7 == 0 && f.rs2 == 0 && f.rd == 0 && f.rs1 == 0
    case System(EBREAK) => f.funct3 == 0 && f.funct7 == 0 && f.rs2 == 1 && f.rd == 0 && f.rs1 == 0
    case System(CSRRW) => f.funct3 == 1
    case System(CSRRS) => f.funct3 == 2
    case System(CSRRC) => f.funct3 == 3
    case System(CSRRWI) => f.funct3 == 5
    case System(CSRRSI) => f.funct3 == 6
    case System(CSRRCI) => f.funct3 == 7
    case AMO(amo, WordWide) => f.funct3 == 2 && ListedAMO(amo, f.funct7 / 4, f.rs2)
    case AMO(amo, DoubleWide) => f.funct3 == 3 && ListedAMO(amo, f.funct7 / 4, f.rs2)
    case LoadFP(Single) => f.funct3 == 2
    case LoadFP(Double) => f.funct3 == 3
    case StoreFP(Single) => f.funct3 == 2
    case StoreFP(Double) => f.funct3 == 3
    case Fused(_, precision) => f.funct7 % 4 == Fmt(precision) && IsRoundingMode(f.funct3)
    case OpFP(opFP, precision) => ListedFP(opFP, precision, f)
  }

  predicate ListedBranch(t: BranchType, funct3: nat) {
    match t
    case BEQ => funct3 == 0 case BNE => funct3 == 1 case BLT => funct3 == 4
    case BGE => funct3 == 5 case BLTU => funct3 == 6 case BGEU => funct3 == 7
  }

  predicate ListedLoad(t: LoadType, funct3: nat) {
    match t
    case LB => funct3 == 0 case LH => funct3 == 1 case LW => funct3 == 2 case LD => funct3 == 3
    case LBU => funct3 == 4 case LHU => funct3 == 5 case LWU => funct3 == 6
  }

  /** A shift amount is six bits, the lowest bit of funct7 among them. */
  predicate ListedOpImm(t: OpImmType, funct3: nat, funct7: nat) {
    match t
    case ADDI => funct3 == 0 case SLTI => funct3 == 2 case SLTIU => funct3 == 3
    case XORI => funct3 == 4 case ORI => funct3 == 6 case ANDI => funct3 == 7
    case SLLI => funct3 == 1 && funct7 / 2 == 0
    case SRLI => funct3 == 5 && funct7 / 2 == 0
    case SRAI => funct3 == 5 && funct7 / 2 == 0x10
  }

  predicate ListedOp(t: OpType, funct3: nat, funct7: nat) {
    match t
    case ADD => funct7 == 0 && funct3 == 0
    case SUB => funct7 == 0x20 && funct3 == 0
    case SLL => funct7 == 0 && funct3 == 1
    case SLT => funct7 == 0 && funct3 == 2
    case SLTU => funct7 == 0 && funct3 == 3
    case XOR => funct7 == 0 && funct3 == 4
    case SRL => funct7 == 0 && funct3 == 5
    case SRA => funct7 == 0x20 && funct3 == 5
    case OR => funct7 == 0 && funct3 == 6
    case AND => funct7 == 0 && funct3 == 7
    case MUL => funct7 == 1 && funct3 == 0
    case MULH => funct7 == 1 && funct3 == 1
    case MULHSU => funct7 == 1 && funct3 == 2
    case MULHU => funct7 == 1 && funct3 == 3
    case DIV => funct7 == 1 && funct3 == 4
    case DIVU => funct7 == 1 && funct3 == 5
    case REM => funct7 == 1 && funct3 == 6
    case REMU => funct7 == 1 && funct3 == 7
  }

  predicate ListedOp32(t: Op32Type, funct3: nat, funct7: nat) {
    match t
    case ADDW => funct7 == 0 && funct3 == 0
    case SUBW => funct7 == 0x20 && funct3 == 0
    case SLLW => funct7 == 0 && funct3 == 1
    case SRLW => funct7 == 0 && funct3 == 5
    case SRAW => funct7 == 0x20 && funct3 == 5
    case MULW => funct7 == 1 && funct3 == 0
    case DIVW => funct7 == 1 && funct3 == 4
    case DIVUW => funct7 == 1 && funct3 == 5
    case REMW => funct7 == 1 && funct3 == 6
    case REMUW => funct7 == 1 && funct3 == 7
  }

  /** The encodings of FENCE.TSO and PAUSE, but for rd and rs1. */
  predicate ListedSpecialFence(f: Fields) {
    (f.funct7 == 0x41 && f.rs2 == 0x13) || (f.funct7 == 0 && f.rs2 == 0x10)
  }

  predicate ListedAMO(t: AMOType, funct5: nat, rs2: nat) {
    match t
    case LR => funct5 == 0x02 && rs2 == 0
    case SC => funct5 == 0x03
    case AMOSWAP => funct5 == 0x01
    case AMOADD => funct5 == 0x00
    case AMOXOR => funct5 == 0x04
    case AMOAND => funct5 == 0x0c
    case AMOOR => funct5 == 0x08
    case AMOMIN => funct5 == 0x10
    case AMOMAX => funct5 == 0x14
    case AMOMINU => funct5 == 0x18
    case AMOMAXU => funct5 == 0x1c
  }

  predicate ListedFP(t: OpFPType, precision: Precision, f: Fields) {
    var rm, rs2, d := IsRoundingMode(f.funct3), f.rs2, Fmt(precision);
    match t
    case FADD => f.funct7 == 0x00 + d && rm
    case FSUB => f.funct7 == 0x04 + d && rm
    case FMUL => f.funct7 == 0x08 + d && rm
    case FDIV => f.funct7 == 0x0c + d && rm
    case FSQRT => f.funct7 == 0x2c + d && rm && rs2 == 0
    case FSGNJ => f.funct7 == 0x10 + d && f.funct3 == 0
    case FSGNJN => f.funct7 == 0x10 + d && f.funct3 == 1
    case FSGNJX => f.funct7 == 0x10 + d && f.funct3 == 2
    case FMIN => f.funct7 == 0x14 + d && f.funct3 == 0
    case FMAX => f.funct7 == 0x14 + d && f.funct3 == 1
    case FCVT_F_F => f.funct7 == 0x20 + d && rm && rs2 == 1 - d
    case FEQ => f.funct7 == 0x50 + d && f.funct3 == 2
    case FLT => f.funct7 == 0x50 + d && f.funct3 == 1
    case FLE => f.funct7 == 0x50 + d && f.funct3 == 0
    case FCVT_W_F => f.funct7 == 0x60 + d && rm && rs2 == 0
    case FCVT_WU_F => f.funct7 == 0x60 + d && rm && rs2 == 1
    case FCVT_L_F => f.funct7 == 0x60 + d && rm && rs2 == 2
    case FCVT_LU_F => f.funct7 == 0x60 + d && rm && rs2 == 3
    case FCVT_F_W => f.funct7 == 0x68 + d && rm && rs2 == 0
    case FCVT_F_WU => f.funct7 == 0x68 + d && rm && rs2 == 1
    case FCVT_F_L => f.funct7 == 0x68 + d && rm && rs2 == 2
    case FCVT_F_LU => f.funct7 == 0x68 + d && rm && rs2 == 3
    case FMV_X_F => f.funct7 == 0x70 + d && f.funct3 == 0 && rs2 == 0
    case FCLASS => f.funct7 == 0x70 + d && f.funct3 == 1 && rs2 == 0
    case FMV_F_X => f.funct7 == 0x78 + d && f.funct3 == 0 && rs2 == 0
  }

  // ----- where the decoder departs -----

  const FUSED_OPCODES := {0x43, 0x47, 0x4b, 0x4f}

  /** The encodings on which the decoder and the listings disagree. */
  predicate Departs(f: Fields) {
    || (f.opcode == 0x67 && f.funct3 != 0)                                                      // JALR
    || (f.opcode == 0x13                                                                        // OP-IMM
        && ((f.funct3 == 1 && f.funct7 / 2 != 0) || (f.funct3 == 5 && f.funct7 / 2 !in {0, 0x10})))
    || (f.opcode == 0x1b                                                                        // OP-IMM-32
        && ((f.funct3 == 1 && f.funct7 != 0) || (f.funct3 == 5 && f.funct7 !in {0, 0x20})))
    || (f.opcode == 0x0f && f.funct3 == 0 && ListedSpecialFence(f) && !(f.rd == 0 && f.rs1 == 0))    // MISC-MEM
    || (f.opcode == 0x73 && f.funct3 == 0 && f.funct7 == 0 && f.rs2 < 2 && !(f.rd == 0 && f.rs1 == 0))   // SYSTEM
    || (f.opcode == 0x2f && f.funct3 in {2, 3} && f.funct7 / 4 == 2 && f.rs2 != 0)              // AMO
    || (f.opcode in FUSED_OPCODES && f.funct7 % 4 < 2 && !IsRoundingMode(f.funct3))
    || (f.opcode == 0x53 && DepartsFP(f.funct7 / 2, f.funct7 % 2, f.funct3, f.rs2))             // OP-FP
  }

  /** The operation is funct7 without its lowest bit, which is the precision. */
  predicate DepartsFP(operation: nat, precision: nat, funct3: nat, rs2: nat) {
    match operation
    case 0x00 => !IsRoundingMode(funct3)                     // FADD
    case 0x02 => !IsRoundingMode(funct3)                     // FSUB
    case 0x04 => !IsRoundingMode(funct3)                     // FMUL
    case 0x06 => !IsRoundingMode(funct3) || rs2 == 0         // FDIV, decoded as FSQRT
    case 0x16 => IsRoundingMode(funct3) && rs2 == 0          // FSQRT, rejected
    case 0x10 =>
      if precision == 0 then rs2 == 1 && !IsRoundingMode(funct3)           // FCVT.S.D
      else rs2 == 1 || (rs2 == 0 && IsRoundingMode(funct3))                // FCVT.D.S, accepted only with rs2 = 1
    case 0x30 => rs2 <= 3 && !IsRoundingMode(funct3)         // FCVT to an integer
    case 0x34 => rs2 <= 3 && !IsRoundingMode(funct3)         // FCVT from an integer
    case 0x38 => funct3 <= 1 && rs2 != 0                     // FMV.X, FCLASS
    case 0x3c => funct3 == 0 && rs2 != 0                     // FMV.F.X
    case _ => false
  }

  /** For fields on which they disagree: the type that the decoder finds, or that the listings have if it finds none. */
  function DepartingType(f: Fields): Type {
    var shift := if f.funct7 / 32 % 2 == 1 then 1 else 0;
    if f.opcode == 0x67 then JALR
    else if f.opcode == 0x13 then OpImm(if f.funct3 == 1 then SLLI else if shift == 1 then SRAI else SRLI)
    else if f.opcode == 0x1b then
      OpImm32(if f.funct3 == 1 then SLLIW else if shift == 1 then SRAIW else SRLIW)
    else if f.opcode == 0x0f then MiscMem(if f.funct7 == 0 then PAUSE else FENCETSO)
    else if f.opcode == 0x73 then System(if f.rs2 == 0 then ECALL else EBREAK)
    else if f.opcode == 0x2f then AMO(LR, if f.funct3 == 2 then WordWide else DoubleWide)
    else if f.opcode in FUSED_OPCODES then
      Fused(DepartingFused(f.opcode), if f.funct7 % 4 == 0 then Single else Double)
    else OpFP(DepartingFP(f.funct7 / 2, f.funct3, f.rs2), if f.funct7 % 2 == 0 then Single else Double)
  }

  function DepartingFused(opcode: nat): FusedType {
    match opcode case 0x43 => FMADD case 0x47 => FMSUB case 0x4b => FNMSUB case _ => FNMADD
  }

  function DepartingFP(operation: nat, funct3: nat, rs2: nat): OpFPType {
    match operation
    case 0x00 => FADD
    case 0x02 => FSUB
    case 0x04 => FMUL
    case 0x06 => if rs2 == 0 then FSQRT else FDIV
    case 0x16 => FSQRT
    case 0x10 => FCVT_F_F
    case 0x30 => if rs2 == 0 then FCVT_W_F else if rs2 == 1 then FCVT_WU_F else if rs2 == 2 then FCVT_L_F else FCVT_LU_F
    case 0x34 => if rs2 == 0 then FCVT_F_W else if rs2 == 1 then FCVT_F_WU else if rs2 == 2 then FCVT_F_L else FCVT_F_LU
    case 0x38 => if funct3 == 0 then FMV_X_F else FCLASS
    case _ => FMV_F_X
  }

  /** The decoder rejects the listed FSQRT and FCVT.D.S. */
  predicate RejectsListed(f: Fields) {
    f.opcode == 0x53 && (f.funct7 / 2 == 0x16 || (f.funct7 == 0x21 && f.rs2 == 0))
  }

  lemma DepartingTypeDiffers(f: Fields)
    requires f.Valid() && Departs(f)
    ensures Matches(DepartingType(f), f) == !RejectsListed(f) && Listed(DepartingType(f), f) == RejectsListed(f)
  {
    if f.opcode == 0x53 {
      DepartingFPDiffers(f);
    } else if f.opcode in {0x0f, 0x73, 0x2f} || f.opcode in FUSED_OPCODES {
      DepartingOthersDiffer(f);
    }
  }

  lemma DepartingFPDiffers(f: Fields)
    requires f.Valid() && Departs(f) && f.opcode == 0x53
    ensures Matches(DepartingType(f), f) == !RejectsListed(f) && Listed(DepartingType(f), f) == RejectsListed(f)
  {
    var t, p := DepartingFP(f.funct7 / 2, f.funct3, f.rs2), if f.funct7 % 2 == 0 then Single else Double;
    assert DepartingType(f) == OpFP(t, p);
    assert Matches(OpFP(t, p), f) <==> (
        && OpFPCodes(t).0.Admits(f.funct3) && OpFPCodes(t).1 == f.funct7 / 2 * 2 && OpFPCodes(t).2.Admits(f.rs2));
    hide Matches, DepartingType;
  }

  lemma DepartingOthersDiffer(f: Fields)
    requires f.Valid() && Departs(f)
    requires f.opcode in {0x0f, 0x73, 0x2f} || f.opcode in FUSED_OPCODES
    ensures Matches(DepartingType(f), f) == !RejectsListed(f) && Listed(DepartingType(f), f) == RejectsListed(f)
  {
  }

  lemma SameOpcode(t: Type)
    ensures OpcodeOf(t) == ListedOpcode(t)
  {
  }

  /** Where they do not depart. */
  lemma AgreeingTypes(f: Fields, t: Type)
    requires f.Valid() && !Departs(f) && f.opcode == ListedOpcode(t)
    ensures MatchesPattern(t, f) == ListedRow(t, f)
  {
    hide MatchesPattern, ListedRow, Departs;
    match t
    case OpFP(opFP, precision) => AgreeingFP(f, opFP, precision);
    case Fused(_, _) => AgreeingOthers(f, t);
    case OpImm(_) => AgreeingImmediates(f, t);
    case OpImm32(_) => AgreeingImmediates(f, t);
    case MiscMem(_) => AgreeingFences(f, t);
    case System(_) => AgreeingFences(f, t);
    case _ => AgreeingOthers(f, t);
  }

  lemma AgreeingFP(f: Fields, t: OpFPType, precision: Precision)
    requires f.Valid() && !Departs(f) && f.opcode == 0x53
    ensures MatchesPattern(OpFP(t, precision), f) == ListedRow(OpFP(t, precision), f)
  {
    hide MatchesPattern, ListedRow, Departs;
    if t in {FADD, FSUB, FMUL, FDIV, FSQRT, FCVT_F_F} {
      AgreeingArithmetic(f, t, precision);
    } else if t in {FCVT_W_F, FCVT_WU_F, FCVT_L_F, FCVT_LU_F, FCVT_F_W, FCVT_F_WU, FCVT_F_L, FCVT_F_LU} {
      AgreeingConversions(f, t, precision);
    } else {
      AgreeingOtherFP(f, t, precision);
    }
  }

  lemma AgreeingArithmetic(f: Fields, t: OpFPType, precision: Precision)
    requires f.Valid() && !Departs(f) && f.opcode == 0x53 && t in {FADD, FSUB, FMUL, FDIV, FSQRT, FCVT_F_F}
    ensures MatchesPattern(OpFP(t, precision), f) == ListedRow(OpFP(t, precision), f)
  {
  }

  lemma AgreeingConversions(f: Fields, t: OpFPType, precision: Precision)
    requires f.Valid() && !Departs(f) && f.opcode == 0x53
    requires t in {FCVT_W_F, FCVT_WU_F, FCVT_L_F, FCVT_LU_F, FCVT_F_W, FCVT_F_WU, FCVT_F_L, FCVT_F_LU}
    ensures MatchesPattern(OpFP(t, precision), f) == ListedRow(OpFP(t, precision), f)
  {
  }

  lemma AgreeingOtherFP(f: Fields, t: OpFPType, precision: Precision)
    requires f.Valid() && !Departs(f) && f.opcode == 0x53
    requires t !in {FADD, FSUB, FMUL, FDIV, FSQRT, FCVT_F_F}
    requires t !in {FCVT_W_F, FCVT_WU_F, FCVT_L_F, FCVT_LU_F, FCVT_F_W, FCVT_F_WU, FCVT_F_L, FCVT_F_LU}
    ensures MatchesPattern(OpFP(t, precision), f) == ListedRow(OpFP(t, precision), f)
  {
  }

  lemma AgreeingImmediates(f: Fields, t: Type)
    requires f.Valid() && !Departs(f) && f.opcode == ListedOpcode(t) && (t.OpImm? || t.OpImm32?)
    ensures MatchesPattern(t, f) == ListedRow(t, f)
  {
  }

  lemma AgreeingFences(f: Fields, t: Type)
    requires f.Valid() && !Departs(f) && f.opcode == ListedOpcode(t) && (t.MiscMem? || t.System?)
    ensures MatchesPattern(t, f) == ListedRow(t, f)
  {
  }

  lemma AgreeingOthers(f: Fields, t: Type)
    requires f.Valid() && !Departs(f) && f.opcode == ListedOpcode(t)
    requires !t.OpFP? && !t.OpImm? && !t.OpImm32? && !t.MiscMem? && !t.System?
    ensures MatchesPattern(t, f) == ListedRow(t, f)
  {
  }

  /** The decoder's table against the listings, with the exact condition. */
  lemma ListingExactly(f: Fields)
    requires f.Valid()
    ensures (forall t :: Matches(t, f) <==> Listed(t, f)) <==> !Departs(f)
  {
    hide MatchesPattern, ListedRow, Departs, DepartingType, ListedOpcode, OpcodeOf;
    forall t {:trigger OpcodeOf(t)} {:trigger ListedOpcode(t)}
      ensures OpcodeOf(t) == ListedOpcode(t)
    {
      SameOpcode(t);
    }
    if Departs(f) {
      DepartingTypeDiffers(f);
    } else {
      forall t | f.opcode == ListedOpcode(t) {
        AgreeingTypes(f, t);
      }
    }
  }

  lemma ListedUnique(t: Type, u: Type, f: Fields)
    requires Listed(t, f) && Listed(u, f)
    ensures t == u
  {
    hide ListedRow;
    if t.OpFP? {
      ListedFPUnique(t.opFP, u.opFP, t.precision, u.precision, f);
    } else {
      ListedOtherUnique(t, u, f);
    }
  }

  lemma ListedFPUnique(t: OpFPType, u: OpFPType, p: Precision, q: Precision, f: Fields)
    requires Listed(OpFP(t, p), f) && Listed(OpFP(u, q), f)
    ensures t == u && p == q
  {
    ListedFPCode(t, p, f);
    ListedFPCode(u, q, f);
    hide ListedFP, ListedCode;
    SameCodeDiffers(t, u, p, f);
  }

  /** funct7 of the row for single precision. */
  function ListedCode(t: OpFPType): nat {
    match t
    case FADD => 0x00 case FSUB => 0x04 case FMUL => 0x08 case FDIV => 0x0c case FSQRT => 0x2c
    case FSGNJ | FSGNJN | FSGNJX => 0x10
    case FMIN | FMAX => 0x14
    case FCVT_F_F => 0x20
    case FEQ | FLT | FLE => 0x50
    case FCVT_W_F | FCVT_WU_F | FCVT_L_F | FCVT_LU_F => 0x60
    case FCVT_F_W | FCVT_F_WU | FCVT_F_L | FCVT_F_LU => 0x68
    case FMV_X_F | FCLASS => 0x70
    case FMV_F_X => 0x78
  }

  lemma ListedFPCode(t: OpFPType, p: Precision, f: Fields)
    requires Listed(OpFP(t, p), f)
    ensures f.funct7 == ListedCode(t) + Fmt(p) && ListedCode(t) % 2 == 0
  {
  }

  lemma SameCodeDiffers(t: OpFPType, u: OpFPType, p: Precision, f: Fields)
    requires ListedCode(t) == ListedCode(u) && ListedFP(t, p, f) && ListedFP(u, p, f)
    ensures t == u
  {
  }

  lemma ListedOtherUnique(t: Type, u: Type, f: Fields)
    requires !t.OpFP? && Listed(t, f) && Listed(u, f)
    ensures t == u
  {
    hide ListedFP;
  }

  // ----- words -----

  /** Bits `last` down to `first` of a word. */
  function Part(w: Word32, last: nat, first: nat): nat
    requires first <= last < 32 && last - first < 31
  {
    GetBits(32, w, first, last)
  }

  /** The fields of section 2.2. */
  function WordFields(w: Word32): (f: Fields)
    ensures f == Split(w)
  {
    Bitfields(w);
    Fields(Part(w, 6, 0), Part(w, 11, 7), Part(w, 14, 12), Part(w, 19, 15), Part(w, 24, 20), Part(w, 31, 25))
  }

  /** The type of instruction that the listings give a word, if any. */
  ghost function ListedType(w: Word32): Option<Type> {
    if exists t :: Listed(t, WordFields(w)) then
      var t :| Listed(t, WordFields(w));
      Some(t)
    else
      None
  }

  /** The type that decoding gives it, if any. */
  ghost function DecodedType(w: Word32): Option<Type> {
    match Decode(w)
    case Some(i) => Some(i.kind)
    case None => None
  }

  // The immediates of section 2.3.

  function ImmediateI(w: Word32): int {
    Part(w, 20, 20) + 2 * Part(w, 24, 21) + 32 * Part(w, 30, 25) - 0x800 * Part(w, 31, 31)
  }

  function ImmediateS(w: Word32): int {
    Part(w, 7, 7) + 2 * Part(w, 11, 8) + 32 * Part(w, 30, 25) - 0x800 * Part(w, 31, 31)
  }

  function ImmediateB(w: Word32): int {
    2 * Part(w, 11, 8) + 32 * Part(w, 30, 25) + 0x800 * Part(w, 7, 7) - 0x1000 * Part(w, 31, 31)
  }

  function ImmediateU(w: Word32): int {
    0x1000 * Part(w, 19, 12) + 0x10_0000 * Part(w, 30, 20) - 0x8000_0000 * Part(w, 31, 31)
  }

  function ImmediateJ(w: Word32): int {
    2 * Part(w, 24, 21) + 32 * Part(w, 30, 25) + 0x800 * Part(w, 20, 20) + 0x1000 * Part(w, 19, 12)
    - 0x10_0000 * Part(w, 31, 31)
  }

  /** The instruction that a word of a type stands for, by the layout of its row. The type has no place for a CSR
      number. */
  function ListedInstruction(t: Type, w: Word32): Instruction {
    var rd, rs1, rs2, rs3, rm := Part(w, 11, 7), Part(w, 19, 15), Part(w, 24, 20), Part(w, 31, 27), Part(w, 14, 12);
    match t
    case LUI | AUIPC => Instruction(t, Immediate(ImmediateU(w)), rd, 0, 0)
    case JAL => Instruction(t, Immediate(ImmediateJ(w)), rd, 0, 0)
    case JALR => Instruction(t, Immediate(ImmediateI(w)), rd, rs1, 0)
    case Branch(_) => Instruction(t, Immediate(ImmediateB(w)), 0, rs1, rs2)
    case Load(_) | LoadFP(_) => Instruction(t, Immediate(ImmediateI(w)), rd, rs1, 0)
    case Store(_) | StoreFP(_) => Instruction(t, Immediate(ImmediateS(w)), 0, rs1, rs2)
    case OpImm(opImm) =>
      var shamt := Part(w, 25, 20);
      Instruction(t, Immediate(if opImm in {SLLI, SRLI, SRAI} then shamt else ImmediateI(w)), rd, rs1, 0)
    case OpImm32(opImm32) =>
      var shamt := Part(w, 24, 20);
      Instruction(t, Immediate(if opImm32 == ADDIW then ImmediateI(w) else shamt), rd, rs1, 0)
    case Op(_) | Op32(_) => Instruction(t, Immediate(0), rd, rs1, rs2)
    case MiscMem(miscMem) =>
      var sets := Part(w, 31, 20);   // fm, pred, succ
      Instruction(t, Immediate(if miscMem == FENCEI then ImmediateI(w) else sets), rd, rs1, 0)
    case System(_) => Instruction(t, Immediate(0), rd, rs1, 0)
    case AMO(_, _) =>
      var aq, rl := Part(w, 26, 26), Part(w, 25, 25);
      Instruction(t, Immediate(2 * aq + rl), rd, rs1, rs2)
    case Fused(_, _) => Instruction(t, FloatOp(rm, rs3), rd, rs1, rs2)
    case OpFP(_, _) => Instruction(t, FloatOp(rm, 0), rd, rs1, rs2)
  }

  /** The parts that no other getter reads. */
  lemma OtherParts(w: Word32)
    ensures var f := Split(w);
      && Part(w, 25, 20) == f.rs2 + 32 * (f.funct7 % 2) && Part(w, 31, 20) == RawI(f)
      && Part(w, 26, 26) == f.funct7 / 2 % 2 && Part(w, 25, 25) == f.funct7 % 2 && Part(w, 31, 27) == f.funct7 / 4
  {
    Pow2Values();
    var f := Split(w);
    var below20 := f.opcode + 0x80 * f.rd + 0x1000 * f.funct3 + 0x8000 * f.rs1;
    var below25 := below20 + 0x10_0000 * f.rs2;
    var a, b, c := f.funct7 % 2, f.funct7 / 2 % 2, f.funct7 / 4;
    DivDiv(f.funct7, 2, 2);
    GetBitsOf(32, w, 20, 6, 0x10_0000, 64, below20, f.rs2 + 32 * a, f.funct7 / 2);
    GetBitsOf(32, w, 25, 1, 0x200_0000, 2, below25, a, f.funct7 / 2);
    GetBitsOf(32, w, 26, 1, 0x400_0000, 2, below25 + 0x200_0000 * a, b, c);
    GetBitsOf(32, w, 27, 5, 0x800_0000, 32, below25 + 0x200_0000 * a + 0x400_0000 * b, c, 0);
    WideBitfields(w);
  }

  /** The parts and immediates in terms of the fields. */
  lemma PartsOfFields(w: Word32)
    ensures var f := Split(w);
      && Part(w, 11, 7) == f.rd && Part(w, 14, 12) == f.funct3 && Part(w, 19, 15) == f.rs1 && Part(w, 24, 20) == f.rs2
      && ImmediateI(w) == TwosComplement(0x800, RawI(f)) && ImmediateS(w) == TwosComplement(0x800, RawS(f))
      && ImmediateB(w) == TwosComplement(0x1000, RawB(f)) && ImmediateU(w) == TwosComplement(0x8000_0000, RawU(f))
      && ImmediateJ(w) == TwosComplement(0x10_0000, RawJ(f))
  {
    hide GetBits, TwosComplement, RawI, RawS, RawB, RawU, RawJ, GetImmediateI, GetImmediateS, GetImmediateB,
      GetImmediateU, GetImmediateJ;
    Bitfields(w);
    ImmediateISum(w);
    ImmediateSSum(w);
    ImmediateBSum(w);
    ImmediateUSum(w);
    ImmediateJSum(w);
  }

  /** What the decoder keeps of the operands is what the row says. */
  lemma OperandsAsListed(w: Word32, t: Type)
    requires Listed(t, Split(w))
    ensures Build(t, Split(w)) == ListedInstruction(t, w)
  {
    hide Part, ImmediateI, ImmediateS, ImmediateB, ImmediateU, ImmediateJ, TwosComplement, RawI, RawS, RawB, RawU, RawJ,
      RawShift, ListedRow, BranchFunct3, LoadFunct3, StoreFunct3, OpImmFunct3, OpCodes, Op32Codes, CSRFunct3, AMOFunct5,
      OpFPCodes, PrecisionBit;
    PartsOfFields(w);
    OtherParts(w);
    if t.OpImm? || t.OpImm32? {
      ShiftAmount(t, Split(w));
    }
  }

  /** What the decoder keeps of the operands of any word, departing ones included, of a type it finds: the same, except
      that the immediate of a shift is the whole I immediate, without bit 10 for a right shift. */
  function DecodedInstruction(t: Type, w: Word32): Instruction {
    var i := ListedInstruction(t, w);
    if t in {OpImm(SLLI), OpImm32(SLLIW)} then i.(payload := Immediate(ImmediateI(w)))
    else if t in {OpImm(SRLI), OpImm(SRAI), OpImm32(SRLIW), OpImm32(SRAIW)} then
      i.(payload := Immediate(ImmediateI(w) - 0x400 * Part(w, 30, 30)))
    else i
  }

  lemma OperandsInFull(w: Word32, t: Type)
    ensures Build(t, Split(w)) == DecodedInstruction(t, w)
  {
    hide Part, ImmediateI, ImmediateS, ImmediateB, ImmediateU, ImmediateJ, TwosComplement, RawI, RawS, RawB, RawU, RawJ,
      RawShift, BranchFunct3, LoadFunct3, StoreFunct3, OpImmFunct3, OpCodes, Op32Codes, CSRFunct3, AMOFunct5,
      OpFPCodes, PrecisionBit;
    PartsOfFields(w);
    OtherParts(w);
    ShiftBit(w);
  }

  lemma ShiftBit(w: Word32)
    ensures Part(w, 30, 30) == Split(w).funct7 / 32 % 2
    ensures TwosComplement(0x800, RawShift(Split(w))) ==
      TwosComplement(0x800, RawI(Split(w))) - 0x400 * Part(w, 30, 30)
  {
    Pow2Values();
    var f := Split(w);
    var a, b, c := f.funct7 % 32, f.funct7 / 32 % 2, f.funct7 / 64;
    DivDiv(f.funct7, 32, 2);
    var below := f.opcode + 0x80 * f.rd + 0x1000 * f.funct3 + 0x8000 * f.rs1 + 0x10_0000 * f.rs2 + 0x200_0000 * a;
    GetBitsOf(32, w, 30, 1, 0x4000_0000, 2, below, b, c);
    hide GetBits;
  }

  /** Every word that decodes, decodes to the instruction that its bits spell out. */
  lemma DecodesToItsBits(w: Word32)
    requires Decode(w).Some?
    ensures Decode(w).value == DecodedInstruction(Decode(w).value.kind, w)
  {
    hide Matches, Build, DecodedInstruction;
    var t :| Matches(t, Split(w)) && Decode(w) == Some(Build(t, Split(w)));
    BuiltKind(t, Split(w));
    OperandsInFull(w, t);
  }

  /** A shift amount that is listed is the immediate. */
  lemma ShiftAmount(t: Type, f: Fields)
    requires f.Valid() && Listed(t, f)
    ensures t == OpImm(SLLI) ==> TwosComplement(0x800, RawI(f)) == f.rs2 + 32 * (f.funct7 % 2)
    ensures t == OpImm(SRLI) || t == OpImm(SRAI) ==> TwosComplement(0x800, RawShift(f)) == f.rs2 + 32 * (f.funct7 % 2)
    ensures t == OpImm32(SLLIW) ==> TwosComplement(0x800, RawI(f)) == f.rs2
    ensures t == OpImm32(SRLIW) || t == OpImm32(SRAIW) ==> TwosComplement(0x800, RawShift(f)) == f.rs2
  {
  }

  /** What the listings make of a word. */
  ghost function ListedMeaning(w: Word32): Option<Instruction> {
    match ListedType(w)
    case Some(t) => Some(ListedInstruction(t, w))
    case None => None
  }

  /** The decoder against chapter 24: on every word the two give the same instruction, type and operands, or both
      reject, if and only if the word's fields are not among the departures; and departures are departures of type. */
  lemma DecodesAsListedExactly(w: Word32)
    ensures Decode(w) == ListedMeaning(w) <==> !Departs(WordFields(w))
    ensures DecodedType(w) == ListedType(w) <==> !Departs(WordFields(w))
  {
    hide Matches, Listed, Departs, WordFields, ListedType, Decode, ListedInstruction, Build;
    TypesAsListedExactly(w);
    if ListedType(w).Some? {
      var t := ListedType(w).value;
      ListedTypeIsListed(w, t);
      ListedKind(t, w);
      if !Departs(Split(w)) {
        DecodedTypeMatches(w, t);
        DecodeAs(w, t);
        OperandsAsListed(w, t);
      }
    }
  }

  lemma ListedKind(t: Type, w: Word32)
    ensures ListedInstruction(t, w).kind == t
  {
    hide Part, ImmediateI, ImmediateS, ImmediateB, ImmediateU, ImmediateJ;
  }

  lemma TypesAsListedExactly(w: Word32)
    ensures DecodedType(w) == ListedType(w) <==> !Departs(WordFields(w))
  {
    hide Matches, Listed, Departs, WordFields, DecodedType, ListedType;
    ListingExactly(Split(w));
    forall t
      ensures DecodedType(w) == Some(t) <==> Matches(t, Split(w))
      ensures ListedType(w) == Some(t) <==> Listed(t, Split(w))
    {
      DecodedTypeMatches(w, t);
      ListedTypeIsListed(w, t);
    }
    if DecodedType(w) == ListedType(w) {
      forall t
        ensures Matches(t, Split(w)) <==> Listed(t, Split(w))
      {
        assert DecodedType(w) == Some(t) <==> ListedType(w) == Some(t);
      }
    }
  }

  lemma DecodedTypeMatches(w: Word32, t: Type)
    ensures DecodedType(w) == Some(t) <==> Matches(t, Split(w))
  {
    hide Matches, Build;
    if Matches(t, Split(w)) {
      DecodeAs(w, t);
      BuiltKind(t, Split(w));
    }
    if u :| Matches(u, Split(w)) && Decode(w) == Some(Build(u, Split(w))) {
      BuiltKind(u, Split(w));
    }
  }

  lemma BuiltKind(t: Type, f: Fields)
    ensures Build(t, f).kind == t
  {
  }

  lemma ListedTypeIsListed(w: Word32, t: Type)
    ensures ListedType(w) == Some(t) <==> Listed(t, Split(w))
  {
    hide Listed, WordFields;
    assert WordFields(w) == Split(w);
    forall u | Listed(u, Split(w)) && Listed(t, Split(w)) {
      ListedUnique(t, u, Split(w));
    }
  }

  lemma UnlistedFP(f: Fields)
    requires RejectsListed(f)
    ensures forall t :: !Matches(t, f)
  {
  }

  /** For departing fields, what the listings have: what the decoder rejects, a division where it finds a square
      root, a plain fence where it finds a special one, and nothing in all other cases. */
  function ListedInstead(f: Fields): Option<Type> {
    if RejectsListed(f) then Some(DepartingType(f))
    else if f.opcode == 0x53 && f.funct7 / 2 == 6 && IsRoundingMode(f.funct3) then
      Some(OpFP(FDIV, if f.funct7 % 2 == 0 then Single else Double))
    else if f.opcode == 0x0f then Some(MiscMem(FENCE))
    else None
  }

  /** The departures in full: what the decoder makes of each of them, and what the listings do. */
  lemma DeparturesInFull(w: Word32)
    requires Departs(WordFields(w))
    ensures DecodedType(w) == if RejectsListed(WordFields(w)) then None else Some(DepartingType(WordFields(w)))
    ensures ListedType(w) == ListedInstead(WordFields(w))
  {
    hide Matches, DecodedType, ListedType, DepartingType, WordFields;
    var f := Split(w);
    DepartingTypeDiffers(f);
    DecodedTypeMatches(w, DepartingType(f));
    if RejectsListed(f) {
      UnlistedFP(f);
      if DecodedType(w).Some? {
        DecodedTypeMatches(w, DecodedType(w).value);
      }
    }
    if ListedInstead(f).Some? {
      ListedTypeIsListed(w, ListedInstead(f).value);
    } else if ListedType(w).Some? {
      ListedTypeIsListed(w, ListedType(w).value);
      NotListed(f, ListedType(w).value);
    }
  }

  lemma NotListed(f: Fields, t: Type)
    requires f.Valid() && Departs(f) && ListedInstead(f).None?
    ensures !Listed(t, f)
  {
    hide DepartingType;
    if t.OpFP? {
      hide Departs;
      assert Departs(f) && f.opcode == 0x53 ==> DepartsFP(f.funct7 / 2, f.funct7 % 2, f.funct3, f.rs2);
    }
  }
}
