/** The decoder as coded (src/riscv/instruction.cpp:130-1064): methods that fill in the members of an
    instruction they are given by reference. Each is proved against the table: on success the members
    hold what `Build` says for a type whose pattern matches, and on failure no type's pattern matches. */
module Decoder {
  import opened Bits
  import opened Encoding
  import opened Instructions
  import opened Codec
  import opened Results

  /** The `Instruction&` that the decoding functions write to. */
  class InstructionRef {
    var kind: Type
    var payload: Payload
    var destinationRegister: nat
    var sourceRegister1: nat
    var sourceRegister2: nat

    constructor ()
      ensures Value() == BLANK
    {
      kind, payload := LUI, Immediate(0);
      destinationRegister, sourceRegister1, sourceRegister2 := 0, 0, 0;
    }

    function Value(): Instruction
      reads this
    {
      Instruction(kind, payload, destinationRegister, sourceRegister1, sourceRegister2)
    }
  }

  /** What every `decode*` method below establishes. */
  ghost predicate Decoded(ok: bool, value: Instruction, encoded: Word32) {
    var f := Split(encoded);
    if ok then Matches(value.kind, f) && value == Build(value.kind, f) else forall t :: !Matches(t, f)
  }

  // ----- readFields* -----

  method ReadFieldsR(encoded: Word32, instr: InstructionRef) returns (funct3: nat, funct7: nat)
    modifies instr
    ensures var f := Split(encoded);
      && instr.Value() == Instruction(old(instr.kind), old(instr.payload), f.rd, f.rs1, f.rs2)
      && funct3 == f.funct3 && funct7 == f.funct7
  {
    instr.sourceRegister1 := GetSourceRegister1(encoded);
    instr.sourceRegister2 := GetSourceRegister2(encoded);
    instr.destinationRegister := GetDestinationRegister(encoded);
    funct3 := GetFunct3(encoded);
    funct7 := GetFunct7(encoded);
  }

  method ReadFieldsI(encoded: Word32, instr: InstructionRef) returns (funct3: nat)
    modifies instr
    ensures var f := Split(encoded);
      && instr.Value() == Instruction(old(instr.kind), Immediate(TwosComplement(0x800, RawI(f))),
                                     f.rd, f.rs1, old(instr.sourceRegister2))
      && funct3 == f.funct3
  {
    instr.sourceRegister1 := GetSourceRegister1(encoded);
    instr.destinationRegister := GetDestinationRegister(encoded);
    instr.payload := Immediate(GetImmediateI(encoded));
    funct3 := GetFunct3(encoded);
  }

  method ReadFieldsS(encoded: Word32, instr: InstructionRef) returns (funct3: nat)
    modifies instr
    ensures var f := Split(encoded);
      && instr.Value() == Instruction(old(instr.kind), Immediate(TwosComplement(0x800, RawS(f))),
                                     old(instr.destinationRegister), f.rs1, f.rs2)
      && funct3 == f.funct3
  {
    instr.sourceRegister1 := GetSourceRegister1(encoded);
    instr.sourceRegister2 := GetSourceRegister2(encoded);
    instr.payload := Immediate(GetImmediateS(encoded));
    funct3 := GetFunct3(encoded);
  }

  method ReadFieldsB(encoded: Word32, instr: InstructionRef) returns (funct3: nat)
    modifies instr
    ensures var f := Split(encoded);
      && instr.Value() == Instruction(old(instr.kind), Immediate(TwosComplement(0x1000, RawB(f))),
                                     old(instr.destinationRegister), f.rs1, f.rs2)
      && funct3 == f.funct3
  {
    instr.sourceRegister1 := GetSourceRegister1(encoded);
    instr.sourceRegister2 := GetSourceRegister2(encoded);
    instr.payload := Immediate(GetImmediateB(encoded));
    funct3 := GetFunct3(encoded);
  }

  method ReadFieldsU(encoded: Word32, instr: InstructionRef)
    modifies instr
    ensures var f := Split(encoded);
      instr.Value() == Instruction(old(instr.kind), Immediate(TwosComplement(0x8000_0000, RawU(f))), f.rd,
                                   old(instr.sourceRegister1), old(instr.sourceRegister2))
  {
    instr.destinationRegister := GetDestinationRegister(encoded);
    instr.payload := Immediate(GetImmediateU(encoded));
  }

  method ReadFieldsJ(encoded: Word32, instr: InstructionRef)
    modifies instr
    ensures var f := Split(encoded);
      instr.Value() == Instruction(old(instr.kind), Immediate(TwosComplement(0x10_0000, RawJ(f))), f.rd,
                                   old(instr.sourceRegister1), old(instr.sourceRegister2))
  {
    instr.destinationRegister := GetDestinationRegister(encoded);
    instr.payload := Immediate(GetImmediateJ(encoded));
  }

  // ----- decode* -----

  method DecodeBranch(encoded: Word32, instr: InstructionRef) returns (ok: bool)
    requires instr.Value() == BLANK && Split(encoded).opcode == OPCODE_BRANCH
    modifies instr
    ensures Decoded(ok, instr.Value(), encoded)
  {
    var funct3 := ReadFieldsB(encoded, instr);
    ok := true;
    match funct3
    case 0 => instr.kind := Branch(BEQ);
    case 1 => instr.kind := Branch(BNE);
    case 4 => instr.kind := Branch(BLT);
    case 5 => instr.kind := Branch(BGE);
    case 6 => instr.kind := Branch(BLTU);
    case 7 => instr.kind := Branch(BGEU);
    case _ => ok := false;
  }

  method DecodeLoad(encoded: Word32, instr: InstructionRef) returns (ok: bool)
    requires instr.Value() == BLANK && Split(encoded).opcode == OPCODE_LOAD
    modifies instr
    ensures Decoded(ok, instr.Value(), encoded)
  {
    var funct3 := ReadFieldsI(encoded, instr);
    ok := true;
    match funct3
    case 0 => instr.kind := Load(LB);
    case 1 => instr.kind := Load(LH);
    case 2 => instr.kind := Load(LW);
    case 4 => instr.kind := Load(LBU);
    case 5 => instr.kind := Load(LHU);
    case 6 => instr.kind := Load(LWU);
    case 3 => instr.kind := Load(LD);
    case _ => ok := false;
  }

  method DecodeStore(encoded: Word32, instr: InstructionRef) returns (ok: bool)
    requires instr.Value() == BLANK && Split(encoded).opcode == OPCODE_STORE
    modifies instr
    ensures Decoded(ok, instr.Value(), encoded)
  {
    var funct3 := ReadFieldsS(encoded, instr);
    ok := true;
    match funct3
    case 0 => instr.kind := Store(SB);
    case 1 => instr.kind := Store(SH);
    case 2 => instr.kind := Store(SW);
    case 3 => instr.kind := Store(SD);
    case _ => ok := false;
  }

  /** Bit 10 of an I-type immediate is bit 5 of funct7, and clearing it in the `int32_t` clears it there. */
  lemma ShiftImmediate(f: Fields)
    requires f.Valid()
    ensures var bits := Unsigned(32, TwosComplement(0x800, RawI(f)));
      && HasBit(32, bits, 10) == (f.funct7 / 32 % 2 == 1)
      && Signed(32, ClearBit(32, bits, 10)) == TwosComplement(0x800, RawShift(f))
  {
    var value := TwosComplement(0x800, RawI(f));
    var bits := Unsigned(32, value);
    Pow2Values();
    SignedUnsigned(32, value);
    HasBitIsBit(32, bits, 10);
    ShrValue(bits, 10);
    ClearBitValue(32, bits, 10);
    ShiftImmediateValue(f, bits);
    hide HasBit, ClearBit, TwosComplement;
  }

  lemma ShiftImmediateValue(f: Fields, bits: nat)
    requires f.Valid() && bits == if RawI(f) < 0x800 then RawI(f) else RawI(f) + 0xffff_f000
    ensures (bits / 0x400 % 2 == 1) == (f.funct7 / 32 % 2 == 1)
    ensures var cleared := if bits / 0x400 % 2 == 1 then bits - 0x400 else bits;
      (if cleared < 0x8000_0000 then cleared else cleared - 0x1_0000_0000) == TwosComplement(0x800, RawShift(f))
  {
    var a, b, c := f.funct7 % 32, f.funct7 / 32 % 2, f.funct7 / 64;
    assert f.funct7 == a + 32 * b + 64 * c;
    var low := f.rs2 + 32 * a;
    assert RawI(f) == low + 0x400 * b + 0x800 * c && RawShift(f) == low + 0x800 * c;
    DivModUnique(bits, 0x400, b + 2 * c + (if c == 0 then 0 else 0x3f_fffc), low);
  }

  lemma SameRaw(f: Fields)
    requires f.funct7 / 32 % 2 == 0
    ensures RawShift(f) == RawI(f)
  {
  }

  method DecodeRightShift(instr: InstructionRef, logical: Type, arithmetic: Type, ghost f: Fields)
    requires f.Valid() && instr.payload == Immediate(TwosComplement(0x800, RawI(f)))
    modifies instr`kind, instr`payload
    ensures instr.kind == if f.funct7 / 32 % 2 == 1 then arithmetic else logical
    ensures instr.payload == Immediate(TwosComplement(0x800, RawShift(f)))
  {
    hide HasBit, ClearBit, Unsigned, Signed, TwosComplement;
    ShiftImmediate(f);
    var bits := Unsigned(32, instr.payload.value);
    if HasBit(32, bits, 10) {
      instr.payload := Immediate(Signed(32, ClearBit(32, bits, 10)));
      instr.kind := arithmetic;
    } else {
      instr.kind := logical;
      SameRaw(f);
    }
  }

  // What the table says about each opcode that several formats or many types share.

  lemma OpImmTypes(f: Fields)
    requires f.opcode == OPCODE_OP_IMM && f.Valid()
    ensures forall t :: Matches(t, f) <==> (
        && t.OpImm? && OpImmFunct3(t.opImm) == f.funct3
        && (t.opImm == SRLI ==> f.funct7 / 32 % 2 == 0) && (t.opImm == SRAI ==> f.funct7 / 32 % 2 == 1))
    ensures forall t: OpImmType :: (
        var raw := if t == SRLI || t == SRAI then RawShift(f) else RawI(f);
        Build(OpImm(t), f) == Instruction(OpImm(t), Immediate(TwosComplement(0x800, raw)), f.rd, f.rs1, 0))
  {
  }

  lemma OpTypes(f: Fields)
    requires f.opcode == OPCODE_OP
    ensures forall t :: Matches(t, f) <==> t.Op? && OpCodes(t.op) == (f.funct3, f.funct7)
    ensures forall t: OpType :: Build(Op(t), f) == Instruction(Op(t), Immediate(0), f.rd, f.rs1, f.rs2)
  {
  }

  lemma Op32Types(f: Fields)
    requires f.opcode == OPCODE_OP_32
    ensures forall t :: Matches(t, f) <==> t.Op32? && Op32Codes(t.op32) == (f.funct3, f.funct7)
    ensures forall t: Op32Type :: Build(Op32(t), f) == Instruction(Op32(t), Immediate(0), f.rd, f.rs1, f.rs2)
  {
  }

  lemma MiscMemTypes(f: Fields)
    requires f.opcode == OPCODE_MISC_MEM && f.Valid()
    ensures forall t :: Matches(t, f) <==> (
        && t.MiscMem?
        && match t.miscMem
           case FENCE => f.funct3 == 0 && RawI(f) != 0x833 && RawI(f) != 0x10
           case FENCETSO => f.funct3 == 0 && RawI(f) == 0x833
           case PAUSE => f.funct3 == 0 && RawI(f) == 0x10
           case FENCEI => f.funct3 == 1)
    ensures forall t: MiscMemType :: (
        var immediate := if t == FENCEI then TwosComplement(0x800, RawI(f)) else RawI(f);
        Build(MiscMem(t), f) == Instruction(MiscMem(t), Immediate(immediate), f.rd, f.rs1, 0))
  {
  }

  lemma SystemTypes(f: Fields)
    requires f.opcode == OPCODE_SYSTEM && f.Valid()
    ensures forall t :: Matches(t, f) <==> (
        && t.System? && CSRFunct3(t.system) == f.funct3
        && (t.system == ECALL ==> RawI(f) == 0) && (t.system == EBREAK ==> RawI(f) == 1))
    ensures forall t: SystemType :: Build(System(t), f) == Instruction(System(t), Immediate(0), f.rd, f.rs1, 0)
  {
  }

  lemma OpFPTypes(f: Fields)
    requires f.opcode == OPCODE_OP_FP
    ensures forall t :: Matches(t, f) <==> (
        && t.OpFP? && PrecisionBit(t.precision) == f.funct7 % 2
        && FPSelects(t.opFP, f.funct7 - f.funct7 % 2, f.funct3, f.rs2))
    ensures forall t: OpFPType, p: Precision ::
        Build(OpFP(t, p), f) == Instruction(OpFP(t, p), FloatOp(f.funct3, 0), f.rd, f.rs1, f.rs2)
  {
  }

  method DecodeOpImm(encoded: Word32, instr: InstructionRef) returns (ok: bool)
    requires instr.Value() == BLANK && Split(encoded).opcode == OPCODE_OP_IMM
    modifies instr
    ensures Decoded(ok, instr.Value(), encoded)
  {
    hide Matches, Build, TwosComplement, RawI, RawShift;
    OpImmTypes(Split(encoded));
    var funct3 := ReadFieldsI(encoded, instr);
    ok := true;
    match funct3
    case 0 => instr.kind := OpImm(ADDI);
    case 1 => instr.kind := OpImm(SLLI);
    case 2 => instr.kind := OpImm(SLTI);
    case 3 => instr.kind := OpImm(SLTIU);
    case 4 => instr.kind := OpImm(XORI);
    case 5 => DecodeRightShift(instr, OpImm(SRLI), OpImm(SRAI), Split(encoded));
    case 6 => instr.kind := OpImm(ORI);
    case 7 => instr.kind := OpImm(ANDI);
  }

  method DecodeOpImm32(encoded: Word32, instr: InstructionRef) returns (ok: bool)
    requires instr.Value() == BLANK && Split(encoded).opcode == OPCODE_OP_IMM_32
    modifies instr
    ensures Decoded(ok, instr.Value(), encoded)
  {
    var funct3 := ReadFieldsI(encoded, instr);
    ok := true;
    match funct3
    case 0 => instr.kind := OpImm32(ADDIW);
    case 1 => instr.kind := OpImm32(SLLIW);
    case 5 => DecodeRightShift(instr, OpImm32(SRLIW), OpImm32(SRAIW), Split(encoded));
    case _ => ok := false;
  }

  method DecodeOp(encoded: Word32, instr: InstructionRef) returns (ok: bool)
    requires instr.Value() == BLANK && Split(encoded).opcode == OPCODE_OP
    modifies instr
    ensures Decoded(ok, instr.Value(), encoded)
  {
    hide Matches, Build;
    OpTypes(Split(encoded));
    var funct3, funct7 := ReadFieldsR(encoded, instr);
    ok := true;
    match funct7
    case 0x00 =>
      match funct3 {
        case 0 => instr.kind := Op(ADD);
        case 1 => instr.kind := Op(SLL);
        case 2 => instr.kind := Op(SLT);
        case 3 => instr.kind := Op(SLTU);
        case 4 => instr.kind := Op(XOR);
        case 5 => instr.kind := Op(SRL);
        case 6 => instr.kind := Op(OR);
        case 7 => instr.kind := Op(AND);
      }
    case 0x20 =>
      match funct3 {
        case 0 => instr.kind := Op(SUB);
        case 5 => instr.kind := Op(SRA);
        case _ => ok := false;
      }
    case 0x01 =>
      match funct3 {
        case 0 => instr.kind := Op(MUL);
        case 1 => instr.kind := Op(MULH);
        case 2 => instr.kind := Op(MULHSU);
        case 3 => instr.kind := Op(MULHU);
        case 4 => instr.kind := Op(DIV);
        case 5 => instr.kind := Op(DIVU);
        case 6 => instr.kind := Op(REM);
        case 7 => instr.kind := Op(REMU);
      }
    case _ => ok := false;
  }

  method DecodeOp32(encoded: Word32, instr: InstructionRef) returns (ok: bool)
    requires instr.Value() == BLANK && Split(encoded).opcode == OPCODE_OP_32
    modifies instr
    ensures Decoded(ok, instr.Value(), encoded)
  {
    hide Matches, Build;
    Op32Types(Split(encoded));
    var funct3, funct7 := ReadFieldsR(encoded, instr);
    ok := true;
    match funct7
    case 0x00 =>
      match funct3 {
        case 0 => instr.kind := Op32(ADDW);
        case 1 => instr.kind := Op32(SLLW);
        case 5 => instr.kind := Op32(SRLW);
        case _ => ok := false;
      }
    case 0x20 =>
      match funct3 {
        case 0 => instr.kind := Op32(SUBW);
        case 5 => instr.kind := Op32(SRAW);
        case _ => ok := false;
      }
    case 0x01 =>
      match funct3 {
        case 0 => instr.kind := Op32(MULW);
        case 4 => instr.kind := Op32(DIVW);
        case 5 => instr.kind := Op32(DIVUW);
        case 6 => instr.kind := Op32(REMW);
        case 7 => instr.kind := Op32(REMUW);
        case _ => ok := false;
      }
    case _ => ok := false;
  }

  /** Masking the sign-extended immediate of a fence gives back its twelve bits. */
  lemma FenceImmediate(f: Fields)
    requires f.Valid()
    ensures And(Unsigned(32, TwosComplement(0x800, RawI(f))), OneBits(12)) == RawI(f)
  {
    var raw, value := RawI(f), TwosComplement(0x800, RawI(f));
    hide And;
    Pow2Values();
    SignedUnsigned(32, value);
    AndOneBits(Unsigned(32, value), 12);
    DivModUnique(Unsigned(32, value), 0x1000, if raw < 0x800 then 0 else 0xf_ffff, raw);
  }

  method DecodeMiscMem(encoded: Word32, instr: InstructionRef) returns (ok: bool)
    requires instr.Value() == BLANK && Split(encoded).opcode == OPCODE_MISC_MEM
    modifies instr
    ensures Decoded(ok, instr.Value(), encoded)
  {
    hide Matches, Build, And, Unsigned, OneBits;
    MiscMemTypes(Split(encoded));
    var funct3 := ReadFieldsI(encoded, instr);
    ok := true;
    match funct3
    case 0 =>
      FenceImmediate(Split(encoded));
      var immediate := And(Unsigned(32, instr.payload.value), OneBits(12));
      instr.payload := Immediate(immediate);
      match immediate {
        case 0x833 => instr.kind := MiscMem(FENCETSO);
        case 0x010 => instr.kind := MiscMem(PAUSE);
        case _ => instr.kind := MiscMem(FENCE);
      }
    case 1 => instr.kind := MiscMem(FENCEI);
    case _ => ok := false;
  }

  lemma SmallImmediate(raw: nat)
    requires raw < 0x1000
    ensures TwosComplement(0x800, raw) == 0 <==> raw == 0
    ensures TwosComplement(0x800, raw) == 1 <==> raw == 1
  {
  }

  method DecodeSystem(encoded: Word32, instr: InstructionRef) returns (ok: bool)
    requires instr.Value() == BLANK && Split(encoded).opcode == OPCODE_SYSTEM
    modifies instr
    ensures Decoded(ok, instr.Value(), encoded)
  {
    hide Matches, Build, TwosComplement;
    SystemTypes(Split(encoded));
    SmallImmediate(RawI(Split(encoded)));
    hide RawI;
    var funct3 := ReadFieldsI(encoded, instr);
    var immediate := instr.payload.value;
    instr.payload := Immediate(0);
    ok := true;
    match funct3
    case 0 =>
      match immediate {
        case 0 => instr.kind := System(ECALL);
        case 1 => instr.kind := System(EBREAK);
        case _ => ok := false;
      }
    case 1 => instr.kind := System(CSRRW);
    case 2 => instr.kind := System(CSRRS);
    case 3 => instr.kind := System(CSRRC);
    case 5 => instr.kind := System(CSRRWI);
    case 6 => instr.kind := System(CSRRSI);
    case 7 => instr.kind := System(CSRRCI);
    case _ => ok := false;
  }

  /** `value >> 2` and `value & 0b11`. */
  lemma LowTwoBits(value: nat)
    ensures Shr(value, 2) == value / 4 && And(value, OneBits(2)) == value % 4
  {
    SmallPow2Values();
    ShrValue(value, 2);
    AndOneBits(value, 2);
  }

  method DecodeAMO(encoded: Word32, instr: InstructionRef) returns (ok: bool)
    requires instr.Value() == BLANK && Split(encoded).opcode == OPCODE_AMO
    modifies instr
    ensures Decoded(ok, instr.Value(), encoded)
  {
    var funct3, funct7 := ReadFieldsR(encoded, instr);
    LowTwoBits(funct7);
    var funct5 := Shr(funct7, 2);
    instr.payload := Immediate(And(funct7, OneBits(2)));
    match funct3
    case 2 => ok := DecodeAMOOperation(funct5, WordWide, instr);
    case 3 => ok := DecodeAMOOperation(funct5, DoubleWide, instr);
    case _ => ok := false;
  }

  /** The switch on funct5, which the source writes out once for each width. */
  method DecodeAMOOperation(funct5: nat, width: Width, instr: InstructionRef) returns (ok: bool)
    modifies instr`kind
    ensures if ok then instr.kind.AMO? && instr.kind.width == width && AMOFunct5(instr.kind.amo) == funct5
            else forall amo :: AMOFunct5(amo) != funct5
  {
    ok := true;
    match funct5
    case 0x00 => instr.kind := AMO(AMOADD, width);
    case 0x01 => instr.kind := AMO(AMOSWAP, width);
    case 0x02 => instr.kind := AMO(LR, width);
    case 0x03 => instr.kind := AMO(SC, width);
    case 0x04 => instr.kind := AMO(AMOXOR, width);
    case 0x08 => instr.kind := AMO(AMOOR, width);
    case 0x0c => instr.kind := AMO(AMOAND, width);
    case 0x10 => instr.kind := AMO(AMOMIN, width);
    case 0x14 => instr.kind := AMO(AMOMAX, width);
    case 0x18 => instr.kind := AMO(AMOMINU, width);
    case 0x1c => instr.kind := AMO(AMOMAXU, width);
    case _ => ok := false;
  }

  method DecodeLoadFP(encoded: Word32, instr: InstructionRef) returns (ok: bool)
    requires instr.Value() == BLANK && Split(encoded).opcode == OPCODE_LOAD_FP
    modifies instr
    ensures Decoded(ok, instr.Value(), encoded)
  {
    var funct3 := ReadFieldsI(encoded, instr);
    ok := true;
    match funct3
    case 2 => instr.kind := LoadFP(Single);
    case 3 => instr.kind := LoadFP(Double);
    case _ => ok := false;
  }

  method DecodeStoreFP(encoded: Word32, instr: InstructionRef) returns (ok: bool)
    requires instr.Value() == BLANK && Split(encoded).opcode == OPCODE_STORE_FP
    modifies instr
    ensures Decoded(ok, instr.Value(), encoded)
  {
    var funct3 := ReadFieldsS(encoded, instr);
    ok := true;
    match funct3
    case 2 => instr.kind := StoreFP(Single);
    case 3 => instr.kind := StoreFP(Double);
    case _ => ok := false;
  }

  method DecodeFPFusedMultiplyAdd(encoded: Word32, opcode: nat, instr: InstructionRef) returns (ok: bool)
    requires instr.Value() == BLANK && Split(encoded).opcode == opcode
    requires opcode in {OPCODE_MADD, OPCODE_MSUB, OPCODE_NMADD, OPCODE_NMSUB}
    modifies instr
    ensures Decoded(ok, instr.Value(), encoded)
  {
    var funct3, funct7 := ReadFieldsR(encoded, instr);
    LowTwoBits(funct7);
    instr.payload := FloatOp(funct3, Shr(funct7, 2));
    var funct2 := And(funct7, OneBits(2));
    ok := true;
    match funct2
    case 0 => instr.kind := Fused(FusedOf(opcode), Single);
    case 1 => instr.kind := Fused(FusedOf(opcode), Double);
    case _ => ok := false;
  }

  /** The switch on the opcode, which the source writes out once for each precision. */
  function FusedOf(opcode: nat): (fused: FusedType)
    requires opcode in {OPCODE_MADD, OPCODE_MSUB, OPCODE_NMADD, OPCODE_NMSUB}
    ensures FusedOpcode(fused) == opcode
  {
    if opcode == OPCODE_MADD then FMADD
    else if opcode == OPCODE_MSUB then FMSUB
    else if opcode == OPCODE_NMADD then FNMADD
    else FNMSUB
  }

  /** The precision is bit 0 of funct7; clearing it leaves the operation. */
  lemma PrecisionOf(funct7: nat)
    requires funct7 < 128
    ensures HasBit(8, funct7, 0) == (funct7 % 2 == 1) && ClearBit(8, funct7, 0) == funct7 - funct7 % 2
  {
    SmallPow2Values();
    HasBitIsBit(8, funct7, 0);
    ClearBitValue(8, funct7, 0);
  }

  method DecodeOpFP(encoded: Word32, instr: InstructionRef) returns (ok: bool)
    requires instr.Value() == BLANK && Split(encoded).opcode == OPCODE_OP_FP
    modifies instr
    ensures Decoded(ok, instr.Value(), encoded)
  {
    hide Matches, Build, HasBit, ClearBit, FPSelects, FPUnused;
    OpFPTypes(Split(encoded));
    var funct3, funct7 := ReadFieldsR(encoded, instr);
    instr.payload := FloatOp(funct3, 0);
    PrecisionOf(funct7);
    var precision := if HasBit(8, funct7, 0) then Double else Single;
    funct7 := ClearBit(8, funct7, 0);
    var operation := SelectOpFP(funct7, funct3, instr.sourceRegister2);
    match operation
    case Some(op) =>
      instr.kind := OpFP(op, precision);
      ok := true;
    case None =>
      UnusedSelectsNothing(funct7, funct3, instr.sourceRegister2);
      ok := false;
  }

  /** The switch of `decodeOpFP`; the source picks the single or double type in every branch. */
  method SelectOpFP(funct7: nat, funct3: nat, rs2: nat) returns (operation: Option<OpFPType>)
    ensures match operation
      case Some(op) => FPSelects(op, funct7, funct3, rs2)
      case None => FPUnused(funct7, funct3, rs2)
  {
    operation := None;
    match funct7
    case 0x00 => operation := Some(FADD);
    case 0x04 => operation := Some(FSUB);
    case 0x08 => operation := Some(FMUL);
    case 0x0c => operation := if rs2 == 0 then Some(FSQRT) else Some(FDIV);
    case 0x10 =>
      match funct3 {
        case 0 => operation := Some(FSGNJ);
        case 1 => operation := Some(FSGNJN);
        case 2 => operation := Some(FSGNJX);
        case _ =>
      }
    case 0x14 =>
      match funct3 {
        case 0 => operation := Some(FMIN);
        case 1 => operation := Some(FMAX);
        case _ =>
      }
    case 0x20 =>
      match rs2 {
        case 1 => operation := Some(FCVT_F_F);
        case _ =>
      }
    case 0x60 =>
      match rs2 {
        case 0 => operation := Some(FCVT_W_F);
        case 1 => operation := Some(FCVT_WU_F);
        case 2 => operation := Some(FCVT_L_F);
        case 3 => operation := Some(FCVT_LU_F);
        case _ =>
      }
    case 0x70 =>
      match funct3 {
        case 0 => operation := Some(FMV_X_F);
        case 1 => operation := Some(FCLASS);
        case _ =>
      }
    case 0x50 =>
      match funct3 {
        case 2 => operation := Some(FEQ);
        case 1 => operation := Some(FLT);
        case 0 => operation := Some(FLE);
        case _ =>
      }
    case 0x68 =>
      match rs2 {
        case 0 => operation := Some(FCVT_F_W);
        case 1 => operation := Some(FCVT_F_WU);
        case 2 => operation := Some(FCVT_F_L);
        case 3 => operation := Some(FCVT_F_LU);
        case _ =>
      }
    case 0x78 =>
      match funct3 {
        case 0 => operation := Some(FMV_F_X);
        case _ =>
      }
    case _ =>
  }

  /** The combinations that the switch rejects. */
  predicate FPUnused(funct7: nat, funct3: nat, rs2: nat) {
    match funct7
    case 0x00 => false
    case 0x04 => false
    case 0x08 => false
    case 0x0c => false
    case 0x10 => funct3 > 2
    case 0x14 => funct3 > 1
    case 0x20 => rs2 != 1
    case 0x50 => funct3 > 2
    case 0x60 => rs2 > 3
    case 0x68 => rs2 > 3
    case 0x70 => funct3 > 1
    case 0x78 => funct3 > 0
    case _ => true
  }

  lemma UnusedSelectsNothing(funct7: nat, funct3: nat, rs2: nat)
    requires FPUnused(funct7, funct3, rs2)
    ensures forall op :: !FPSelects(op, funct7, funct3, rs2)
  {
  }

  predicate FPSelects(op: OpFPType, funct7: nat, funct3: nat, rs2: nat) {
    var codes := OpFPCodes(op);
    codes.0.Admits(funct3) && codes.1 == funct7 && codes.2.Admits(rs2)
  }

  // ----- the top of the decoder -----

  method DecodeInstruction(instr: InstructionRef, encoded: Word32) returns (ok: bool)
    requires instr.Value() == BLANK
    modifies instr
    ensures Decode(encoded) == if ok then Some(instr.Value()) else None
  {
    ok := DecodeByOpcode(instr, encoded);
    if ok {
      DecodeAs(encoded, instr.kind);
    }
  }

  lemma PlainTypes(f: Fields)
    requires f.opcode in {OPCODE_LUI, OPCODE_AUIPC, OPCODE_JAL, OPCODE_JALR}
    ensures Matches(if f.opcode == OPCODE_LUI then LUI else if f.opcode == OPCODE_AUIPC then AUIPC
                    else if f.opcode == OPCODE_JAL then JAL else JALR, f)
    ensures forall t :: t == LUI || t == AUIPC ==>
      Build(t, f) == Instruction(t, Immediate(TwosComplement(0x8000_0000, RawU(f))), f.rd, 0, 0)
    ensures Build(JAL, f) == Instruction(JAL, Immediate(TwosComplement(0x10_0000, RawJ(f))), f.rd, 0, 0)
    ensures Build(JALR, f) == Instruction(JALR, Immediate(TwosComplement(0x800, RawI(f))), f.rd, f.rs1, 0)
  {
  }

  lemma UnlistedOpcode(f: Fields)
    requires f.opcode !in {OPCODE_LUI, OPCODE_AUIPC, OPCODE_JAL, OPCODE_JALR, OPCODE_BRANCH, OPCODE_LOAD,
      OPCODE_STORE, OPCODE_OP_IMM, OPCODE_OP_IMM_32, OPCODE_OP, OPCODE_OP_32, OPCODE_MISC_MEM, OPCODE_SYSTEM,
      OPCODE_AMO, OPCODE_LOAD_FP, OPCODE_STORE_FP, OPCODE_MADD, OPCODE_MSUB, OPCODE_NMADD, OPCODE_NMSUB, OPCODE_OP_FP}
    ensures forall t :: !Matches(t, f)
  {
    hide MatchesPattern;
  }

  method DecodeByOpcode(instr: InstructionRef, encoded: Word32) returns (ok: bool)
    requires instr.Value() == BLANK
    modifies instr
    ensures Decoded(ok, instr.Value(), encoded)
  {
    hide Matches, Build, GetOpcode;
    var opcode := GetOpcode(encoded);
    ghost var f := Split(encoded);
    ok := true;
    if opcode in {OPCODE_LUI, OPCODE_AUIPC, OPCODE_JAL, OPCODE_JALR} {
      PlainTypes(f);
    }
    if opcode == OPCODE_LUI {
      ReadFieldsU(encoded, instr);
      instr.kind := LUI;
    } else if opcode == OPCODE_AUIPC {
      ReadFieldsU(encoded, instr);
      instr.kind := AUIPC;
    } else if opcode == OPCODE_JAL {
      ReadFieldsJ(encoded, instr);
      instr.kind := JAL;
    } else if opcode == OPCODE_JALR {
      var _ := ReadFieldsI(encoded, instr);
      instr.kind := JALR;
    } else if opcode == OPCODE_BRANCH {
      ok := DecodeBranch(encoded, instr);
    } else if opcode == OPCODE_LOAD {
      ok := DecodeLoad(encoded, instr);
    } else if opcode == OPCODE_STORE {
      ok := DecodeStore(encoded, instr);
    } else if opcode == OPCODE_OP_IMM {
      ok := DecodeOpImm(encoded, instr);
    } else if opcode == OPCODE_OP_IMM_32 {
      ok := DecodeOpImm32(encoded, instr);
    } else if opcode == OPCODE_OP {
      ok := DecodeOp(encoded, instr);
    } else if opcode == OPCODE_OP_32 {
      ok := DecodeOp32(encoded, instr);
    } else if opcode == OPCODE_MISC_MEM {
      ok := DecodeMiscMem(encoded, instr);
    } else if opcode == OPCODE_SYSTEM {
      ok := DecodeSystem(encoded, instr);
    } else if opcode == OPCODE_AMO {
      ok := DecodeAMO(encoded, instr);
    } else if opcode == OPCODE_LOAD_FP {
      ok := DecodeLoadFP(encoded, instr);
    } else if opcode == OPCODE_STORE_FP {
      ok := DecodeStoreFP(encoded, instr);
    } else if opcode in {OPCODE_MADD, OPCODE_MSUB, OPCODE_NMADD, OPCODE_NMSUB} {
      ok := DecodeFPFusedMultiplyAdd(encoded, opcode, instr);
    } else if opcode == OPCODE_OP_FP {
      ok := DecodeOpFP(encoded, instr);
    } else {
      UnlistedOpcode(f);
      ok := false;
    }
  }
}
