/** Instructions and the table of their encodings (src/riscv/instruction.hpp, src/riscv/instruction.cpp).

    The table says which field values belong to each type of instruction, as the decoder has it; it is
    the specification that the decoder's nested switches are proved against. `Listings` states the
    listings of chapter 24 of the RISC-V Unprivileged ISA and proves exactly where the table departs.

    The flat enumeration `Instruction::Type` is grouped by opcode here: `BEQ` is `Branch(BEQ)`,
    `LRD` is `AMO(LR, DoubleWide)`, `FADDS` is `OpFP(FADD, Single)`. */
module Instructions {
  import opened Encoding

  datatype BranchType = BEQ | BNE | BLT | BGE | BLTU | BGEU
  datatype LoadType = LB | LH | LW | LBU | LHU | LWU | LD
  datatype StoreType = SB | SH | SW | SD
  datatype OpImmType = ADDI | SLLI | SLTI | SLTIU | XORI | SRLI | SRAI | ORI | ANDI
  datatype OpImm32Type = ADDIW | SLLIW | SRLIW | SRAIW
  datatype OpType =
    | ADD | SLL | SLT | SLTU | XOR | SRL | OR | AND | SUB | SRA
    | MUL | MULH | MULHSU | MULHU | DIV | DIVU | REM | REMU
  datatype Op32Type = ADDW | SLLW | SRLW | SUBW | SRAW | MULW | DIVW | DIVUW | REMW | REMUW
  datatype MiscMemType = FENCE | FENCETSO | PAUSE | FENCEI
  datatype SystemType = ECALL | EBREAK | CSRRW | CSRRS | CSRRC | CSRRWI | CSRRSI | CSRRCI
  datatype AMOType =
    | AMOADD | AMOSWAP | LR | SC | AMOXOR | AMOOR | AMOAND | AMOMIN | AMOMAX | AMOMINU | AMOMAXU
  datatype FusedType = FMADD | FMSUB | FNMADD | FNMSUB

  /** `F` stands for the precision: `FCVT_F_W` is FCVTSW or FCVTDW, `FMV_X_F` is FMVXW or FMVXD,
      and `FCVT_F_F` is FCVTSD (single) or FCVTDS (double). */
  datatype OpFPType =
    | FADD | FSUB | FMUL | FDIV | FSQRT | FSGNJ | FSGNJN | FSGNJX | FMIN | FMAX | FCVT_F_F
    | FCVT_W_F | FCVT_WU_F | FCVT_L_F | FCVT_LU_F | FCVT_F_W | FCVT_F_WU | FCVT_F_L | FCVT_F_LU
    | FMV_X_F | FMV_F_X | FCLASS | FEQ | FLT | FLE

  datatype Width = WordWide | DoubleWide
  datatype Precision = Single | Double

  datatype Type =
    | LUI | AUIPC | JAL | JALR
    | Branch(branch: BranchType)
    | Load(load: LoadType)
    | Store(store: StoreType)
    | OpImm(opImm: OpImmType)
    | OpImm32(opImm32: OpImm32Type)
    | Op(op: OpType)
    | Op32(op32: Op32Type)
    | MiscMem(miscMem: MiscMemType)
    | System(system: SystemType)
    | AMO(amo: AMOType, width: Width)
    | LoadFP(precision: Precision)
    | StoreFP(precision: Precision)
    | Fused(fused: FusedType, precision: Precision)
    | OpFP(opFP: OpFPType, precision: Precision)

  /** The union inside `Instruction`: an immediate, or the parameters of a floating-point operation. */
  datatype Payload =
    | Immediate(value: int)
    | FloatOp(roundingMode: nat, sourceRegister3: nat)

  datatype Instruction = Instruction(
    kind: Type,
    payload: Payload,
    destinationRegister: nat,
    sourceRegister1: nat,
    sourceRegister2: nat)
  {
    /** The immediate as the run loop reads it; only types that have one are ever asked. */
    function Imm(): int {
      match payload
      case Immediate(value) => value
      case FloatOp(_, _) => 0
    }

    predicate RegistersExist() {
      destinationRegister < 32 && sourceRegister1 < 32 && sourceRegister2 < 32
    }
  }

  /** `Instruction {}`: every member at its default. */
  const BLANK := Instruction(LUI, Immediate(0), 0, 0, 0)

  // ----- the table -----

  const OPCODE_LOAD: int := 0x03
  const OPCODE_LOAD_FP: int := 0x07
  const OPCODE_MISC_MEM: int := 0x0f
  const OPCODE_OP_IMM: int := 0x13
  const OPCODE_AUIPC: int := 0x17
  const OPCODE_OP_IMM_32: int := 0x1b
  const OPCODE_STORE: int := 0x23
  const OPCODE_STORE_FP: int := 0x27
  const OPCODE_AMO: int := 0x2f
  const OPCODE_OP: int := 0x33
  const OPCODE_LUI: int := 0x37
  const OPCODE_OP_32: int := 0x3b
  const OPCODE_MADD: int := 0x43
  const OPCODE_MSUB: int := 0x47
  const OPCODE_NMSUB: int := 0x4b
  const OPCODE_NMADD: int := 0x4f
  const OPCODE_OP_FP: int := 0x53
  const OPCODE_BRANCH: int := 0x63
  const OPCODE_JALR: int := 0x67
  const OPCODE_JAL: int := 0x6f
  const OPCODE_SYSTEM: int := 0x73

  /** How a format lays its operands out in the fields, and what of them an instruction keeps. */
  datatype Format =
    | FormatR        // three registers
    | FormatFP       // three registers, rounding mode in funct3
    | FormatR4       // four registers: funct7 is rs3 above a two-bit precision
    | FormatAMO      // three registers: funct7 is an operation above the acquire and release bits
    | FormatI        // signed 12-bit immediate in rs2 and funct7
    | FormatShift    // as I, but bit 10 of the immediate selects the operation
    | FormatFence    // as I, unsigned
    | FormatSystem   // as I, but the immediate is not kept
    | FormatS | FormatB | FormatU | FormatJ

  /** A constraint on one field. */
  datatype Constraint = Any | Is(value: nat) | NonZero
  {
    predicate Admits(field: nat) {
      match this
      case Any => true
      case Is(value) => field == value
      case NonZero => field != 0
    }

    /** The field value that an encoder has to put in. */
    function Fixed(): nat {
      if Is? then value else 0
    }
  }

  /** The part of funct7 that tells instructions of one format apart is called its operation. */
  datatype Pattern = Pattern(format: Format, funct3: Constraint, operation: Constraint, rs2: Constraint)

  function OpcodeOf(t: Type): nat {
    match t
    case LUI => OPCODE_LUI case AUIPC => OPCODE_AUIPC case JAL => OPCODE_JAL case JALR => OPCODE_JALR
    case Branch(_) => OPCODE_BRANCH case Load(_) => OPCODE_LOAD case Store(_) => OPCODE_STORE
    case OpImm(_) => OPCODE_OP_IMM case OpImm32(_) => OPCODE_OP_IMM_32
    case Op(_) => OPCODE_OP case Op32(_) => OPCODE_OP_32
    case MiscMem(_) => OPCODE_MISC_MEM case System(_) => OPCODE_SYSTEM case AMO(_, _) => OPCODE_AMO
    case LoadFP(_) => OPCODE_LOAD_FP case StoreFP(_) => OPCODE_STORE_FP
    case Fused(fused, _) => FusedOpcode(fused) case OpFP(_, _) => OPCODE_OP_FP
  }

  function PatternOf(t: Type): Pattern {
    match t
    case LUI => Pattern(FormatU, Any, Any, Any)
    case AUIPC => Pattern(FormatU, Any, Any, Any)
    case JAL => Pattern(FormatJ, Any, Any, Any)
    case JALR => Pattern(FormatI, Any, Any, Any)
    case Branch(branch) => Pattern(FormatB, Is(BranchFunct3(branch)), Any, Any)
    case Load(load) => Pattern(FormatI, Is(LoadFunct3(load)), Any, Any)
    case Store(store) => Pattern(FormatS, Is(StoreFunct3(store)), Any, Any)
    case OpImm(SRLI) => Pattern(FormatShift, Is(5), Is(0), Any)
    case OpImm(SRAI) => Pattern(FormatShift, Is(5), Is(1), Any)
    case OpImm(opImm) => Pattern(FormatI, Is(OpImmFunct3(opImm)), Any, Any)
    case OpImm32(SRLIW) => Pattern(FormatShift, Is(5), Is(0), Any)
    case OpImm32(SRAIW) => Pattern(FormatShift, Is(5), Is(1), Any)
    case OpImm32(opImm32) => Pattern(FormatI, Is(if opImm32 == ADDIW then 0 else 1), Any, Any)
    case Op(op) => Pattern(FormatR, Is(OpCodes(op).0), Is(OpCodes(op).1), Any)
    case Op32(op32) => Pattern(FormatR, Is(Op32Codes(op32).0), Is(Op32Codes(op32).1), Any)
    case MiscMem(FENCE) => Pattern(FormatFence, Is(0), Any, Any)
    case MiscMem(FENCETSO) => Pattern(FormatFence, Is(0), Is(0x41), Is(0x13))
    case MiscMem(PAUSE) => Pattern(FormatFence, Is(0), Is(0), Is(0x10))
    case MiscMem(FENCEI) => Pattern(FormatI, Is(1), Any, Any)
    case System(ECALL) => Pattern(FormatSystem, Is(0), Is(0), Is(0))
    case System(EBREAK) => Pattern(FormatSystem, Is(0), Is(0), Is(1))
    case System(system) => Pattern(FormatSystem, Is(CSRFunct3(system)), Any, Any)
    case AMO(amo, width) =>
      Pattern(FormatAMO, Is(if width == WordWide then 2 else 3), Is(AMOFunct5(amo)), Any)
    case LoadFP(precision) => Pattern(FormatI, Is(2 + PrecisionBit(precision)), Any, Any)
    case StoreFP(precision) => Pattern(FormatS, Is(2 + PrecisionBit(precision)), Any, Any)
    case Fused(fused, precision) => Pattern(FormatR4, Any, Is(PrecisionBit(precision)), Any)
    case OpFP(opFP, precision) =>
      var codes := OpFPCodes(opFP);
      Pattern(FormatFP, codes.0, Is(codes.1 + PrecisionBit(precision)), codes.2)
  }

  function PrecisionBit(precision: Precision): nat {
    if precision == Single then 0 else 1
  }

  function BranchFunct3(t: BranchType): nat {
    match t case BEQ => 0 case BNE => 1 case BLT => 4 case BGE => 5 case BLTU => 6 case BGEU => 7
  }

  function LoadFunct3(t: LoadType): nat {
    match t case LB => 0 case LH => 1 case LW => 2 case LD => 3 case LBU => 4 case LHU => 5 case LWU => 6
  }

  function StoreFunct3(t: StoreType): nat {
    match t case SB => 0 case SH => 1 case SW => 2 case SD => 3
  }

  function OpImmFunct3(t: OpImmType): nat {
    match t
    case ADDI => 0 case SLLI => 1 case SLTI => 2 case SLTIU => 3
    case XORI => 4 case SRLI => 5 case SRAI => 5 case ORI => 6 case ANDI => 7
  }

  /** funct3 and funct7. */
  function OpCodes(t: OpType): (nat, nat) {
    match t
    case ADD => (0, 0) case SLL => (1, 0) case SLT => (2, 0) case SLTU => (3, 0)
    case XOR => (4, 0) case SRL => (5, 0) case OR => (6, 0) case AND => (7, 0)
    case SUB => (0, 0x20) case SRA => (5, 0x20)
    case MUL => (0, 1) case MULH => (1, 1) case MULHSU => (2, 1) case MULHU => (3, 1)
    case DIV => (4, 1) case DIVU => (5, 1) case REM => (6, 1) case REMU => (7, 1)
  }

  /** funct3 and funct7. */
  function Op32Codes(t: Op32Type): (nat, nat) {
    match t
    case ADDW => (0, 0) case SLLW => (1, 0) case SRLW => (5, 0)
    case SUBW => (0, 0x20) case SRAW => (5, 0x20)
    case MULW => (0, 1) case DIVW => (4, 1) case DIVUW => (5, 1) case REMW => (6, 1) case REMUW => (7, 1)
  }

  function CSRFunct3(t: SystemType): nat {
    match t
    case ECALL => 0 case EBREAK => 0
    case CSRRW => 1 case CSRRS => 2 case CSRRC => 3 case CSRRWI => 5 case CSRRSI => 6 case CSRRCI => 7
  }

  function AMOFunct5(t: AMOType): nat {
    match t
    case AMOADD => 0x00 case AMOSWAP => 0x01 case LR => 0x02 case SC => 0x03 case AMOXOR => 0x04
    case AMOOR => 0x08 case AMOAND => 0x0c case AMOMIN => 0x10 case AMOMAX => 0x14
    case AMOMINU => 0x18 case AMOMAXU => 0x1c
  }

  function FusedOpcode(t: FusedType): nat {
    match t
    case FMADD => OPCODE_MADD case FMSUB => OPCODE_MSUB case FNMSUB => OPCODE_NMSUB case FNMADD => OPCODE_NMADD
  }

  /** funct3, funct7 for single precision, and rs2. A division by register 0 decodes as a square root. */
  function OpFPCodes(t: OpFPType): (Constraint, nat, Constraint) {
    match t
    case FADD => (Any, 0x00, Any) case FSUB => (Any, 0x04, Any) case FMUL => (Any, 0x08, Any)
    case FDIV => (Any, 0x0c, NonZero) case FSQRT => (Any, 0x0c, Is(0))
    case FSGNJ => (Is(0), 0x10, Any) case FSGNJN => (Is(1), 0x10, Any) case FSGNJX => (Is(2), 0x10, Any)
    case FMIN => (Is(0), 0x14, Any) case FMAX => (Is(1), 0x14, Any)
    case FCVT_F_F => (Any, 0x20, Is(1))
    case FCVT_W_F => (Any, 0x60, Is(0)) case FCVT_WU_F => (Any, 0x60, Is(1))
    case FCVT_L_F => (Any, 0x60, Is(2)) case FCVT_LU_F => (Any, 0x60, Is(3))
    case FCVT_F_W => (Any, 0x68, Is(0)) case FCVT_F_WU => (Any, 0x68, Is(1))
    case FCVT_F_L => (Any, 0x68, Is(2)) case FCVT_F_LU => (Any, 0x68, Is(3))
    case FMV_X_F => (Is(0), 0x70, Any) case FCLASS => (Is(1), 0x70, Any)
    case FLE => (Is(0), 0x50, Any) case FLT => (Is(1), 0x50, Any) case FEQ => (Is(2), 0x50, Any)
    case FMV_F_X => (Is(0), 0x78, Any)
  }

  function Operation(format: Format, funct7: nat): nat {
    match format
    case FormatR4 => funct7 % 4
    case FormatAMO => funct7 / 4
    case FormatShift => funct7 / 32 % 2
    case _ => funct7
  }

  /** `FENCE` is every fence encoding but the two that have types of their own. */
  predicate IsSpecialFence(f: Fields) {
    (f.funct7 == 0x41 && f.rs2 == 0x13) || (f.funct7 == 0 && f.rs2 == 0x10)
  }

  predicate MatchesPattern(t: Type, f: Fields) {
    var p := PatternOf(t);
    && p.funct3.Admits(f.funct3)
    && p.operation.Admits(Operation(p.format, f.funct7))
    && p.rs2.Admits(f.rs2)
    && (t == MiscMem(FENCE) ==> !IsSpecialFence(f))
  }

  /** The fields encode an instruction of type `t`. */
  predicate Matches(t: Type, f: Fields) {
    f.opcode == OpcodeOf(t) && MatchesPattern(t, f)
  }

  /** The table is unambiguous: no encoding belongs to two types. */
  lemma MatchUnique(t: Type, u: Type, f: Fields)
    requires Matches(t, f) && Matches(u, f)
    ensures t == u
  {
    hide MatchesPattern;
    match t
    case Op(op) => OpUnique(op, u.op, f);
    case Op32(op32) => Op32Unique(op32, u.op32, f);
    case AMO(amo, width) => AMOUnique(amo, u.amo, width, u.width, f);
    case OpFP(opFP, precision) => OpFPUnique(opFP, u.opFP, precision, u.precision, f);
    case Fused(fused, precision) => FusedUnique(fused, u.fused, precision, u.precision, f);
    case OpImm(opImm) => OpImmUnique(opImm, u.opImm, f);
    case MiscMem(miscMem) => MiscMemUnique(miscMem, u.miscMem, f);
    case System(system) => SystemUnique(system, u.system, f);
    case _ => ImmediateUnique(t, u, f);
  }

  lemma OpUnique(t: OpType, u: OpType, f: Fields)
    requires Matches(Op(t), f) && Matches(Op(u), f)
    ensures t == u
  {
  }

  lemma Op32Unique(t: Op32Type, u: Op32Type, f: Fields)
    requires Matches(Op32(t), f) && Matches(Op32(u), f)
    ensures t == u
  {
  }

  lemma AMOUnique(t: AMOType, u: AMOType, w: Width, v: Width, f: Fields)
    requires Matches(AMO(t, w), f) && Matches(AMO(u, v), f)
    ensures t == u && w == v
  {
  }

  lemma FusedUnique(t: FusedType, u: FusedType, p: Precision, q: Precision, f: Fields)
    requires Matches(Fused(t, p), f) && Matches(Fused(u, q), f)
    ensures t == u && p == q
  {
  }

  lemma OpFPUnique(t: OpFPType, u: OpFPType, p: Precision, q: Precision, f: Fields)
    requires Matches(OpFP(t, p), f) && Matches(OpFP(u, q), f)
    ensures t == u && p == q
  {
  }

  lemma OpImmUnique(t: OpImmType, u: OpImmType, f: Fields)
    requires Matches(OpImm(t), f) && Matches(OpImm(u), f)
    ensures t == u
  {
  }

  lemma MiscMemUnique(t: MiscMemType, u: MiscMemType, f: Fields)
    requires Matches(MiscMem(t), f) && Matches(MiscMem(u), f)
    ensures t == u
  {
  }

  lemma SystemUnique(t: SystemType, u: SystemType, f: Fields)
    requires Matches(System(t), f) && Matches(System(u), f)
    ensures t == u
  {
  }

  lemma ImmediateUnique(t: Type, u: Type, f: Fields)
    requires !t.Op? && !t.Op32? && !t.AMO? && !t.Fused? && !t.OpFP? && !t.OpImm? && !t.MiscMem? && !t.System?
    requires Matches(t, f) && Matches(u, f)
    ensures t == u
  {
  }
}
