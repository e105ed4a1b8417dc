/** The state of a hart (src/riscv/base.hpp, src/riscv/base.cpp). */
module Base {
  import opened Bits
  import opened Machine

  class RegisterFile {
    const registers: array<Word64>

    constructor ()
      ensures fresh(registers) && registers.Length == 32 && registers[..] == FRESH.registers
    {
      registers := new Word64[32](_ => 0);
    }

    /** `operator[]` */
    function Get(index: nat): Word64
      requires index < registers.Length
      reads registers
    {
      registers[index]
    }

    method Set(index: nat, value: Word64)
      requires registers.Length == 32 && index < 32
      modifies registers
      ensures registers[..] == SetRegister(old(registers[..]), index, value)
      ensures forall k :: 0 <= k < 32 ==> registers[k] == if k == index && k != 0 then value else old(registers[k])
    {
      if index == 0 {
        return;
      }
      registers[index] := value;
    }
  }

  // ----- the floating-point control and status register (section 11.2 of the Unprivileged ISA) -----

  /** The two members of a thread that make up fcsr. */
  datatype Fcsr = Fcsr(roundingMode: nat, exceptionFlags: nat)
  {
    predicate Valid() {
      roundingMode < 8 && exceptionFlags < 32
    }

    /** The register's value as one number. */
    function Value(): nat {
      32 * roundingMode + exceptionFlags
    }
  }

  function FcsrOf(value: Word64): Fcsr {
    Fcsr(value / 32 % 8, value % 32)
  }

  function SetFlag(flags: nat, flag: nat, on: bool): nat
    requires flag < 8
  {
    if on then SetBit(8, flags, flag) else ClearBit(8, flags, flag)
  }

  datatype FcsrWrite = WriteFlag(flag: nat, on: bool) | WriteRegister(value: Word64)

  function Written(f: Fcsr, write: FcsrWrite): Fcsr
    requires write.WriteFlag? ==> write.flag < 5
  {
    match write
    case WriteFlag(flag, on) => f.(exceptionFlags := SetFlag(f.exceptionFlags, flag, on))
    case WriteRegister(value) => FcsrOf(value)
  }

  /** Writing one of the five flags keeps the flags below 32, sets that flag and leaves the others alone. */
  lemma FlagWrite(flags: nat, flag: nat, on: bool)
    requires flags < 32 && flag < 5
    ensures SetFlag(flags, flag, on) < 32
    ensures forall i: nat :: Bit(SetFlag(flags, flag, on), i) == if i == flag then on else Bit(flags, i)
  {
    hide SetBit, ClearBit, Bit;
    SmallPow2Values();
    SetBitValue(8, flags, flag);
    ClearBitValue(8, flags, flag);
    FreeBitRoom(flags, flag);
    forall i: nat
      ensures Bit(SetFlag(flags, flag, on), i) == if i == flag then on else Bit(flags, i)
    {
      SetBitBits(8, flags, flag, i);
      ClearBitBits(8, flags, flag, i);
      HighBitsClear(flags, i);
    }
  }

  lemma HighBitsClear(flags: nat, i: nat)
    requires flags < 32
    ensures i >= 5 ==> !Bit(flags, i)
  {
    ShrValue(flags, i);
    if i >= 5 {
      SmallPow2Values();
      if i > 5 {
        Pow2Monotone(5, i);
      }
      DivModUnique(flags, Pow2(i), 0, flags);
    }
  }

  lemma FreeBitRoom(flags: nat, flag: nat)
    requires flags < 32 && flag < 5
    ensures !Bit(flags, flag) ==> flags + Pow2(flag) < 32
  {
    SmallPow2Values();
    assert Pow2(0) == 1;
    ShrValue(flags, flag);
    if flag == 0 {
    } else if flag == 1 {
    } else if flag == 2 {
    } else if flag == 3 {
    } else {
    }
  }

  /** What a write does, in full. A flag write makes that flag what is written, leaves every other flag alone, and keeps
      the rounding mode; a register write leaves the value modulo 256, whose low five bits are the flags. */
  lemma WriteMeans(f: Fcsr, write: FcsrWrite)
    requires f.Valid() && (write.WriteFlag? ==> write.flag < 5)
    ensures Written(f, write).Valid()
    ensures match write
      case WriteFlag(flag, on) =>
        && Written(f, write).roundingMode == f.roundingMode
        && forall i: nat ::
             Bit(Written(f, write).exceptionFlags, i) == if i == flag then on else Bit(f.exceptionFlags, i)
      case WriteRegister(v) => Written(f, write).Value() == v % 256 && Written(f, write).exceptionFlags == v % 32
  {
    match write
    case WriteFlag(flag, on) =>
      FlagWrite(f.exceptionFlags, flag, on);
    case WriteRegister(v) =>
      FcsrReadWrite(f, v);
  }

  /** The register's layout (section 11.2): bits 0 to 4 are the flags, bits 5 to 7 the rounding mode. */
  lemma ValueBits(f: Fcsr, i: nat)
    requires f.Valid()
    ensures Bit(f.Value(), i) == if i < 5 then Bit(f.exceptionFlags, i) else Bit(f.roundingMode, i - 5)
  {
    SmallPow2Values();
    PackedBits(f.exceptionFlags, f.roundingMode, 5, i);
  }

  function WrittenAll(f: Fcsr, writes: seq<FcsrWrite>): Fcsr
    requires forall w :: w in writes && w.WriteFlag? ==> w.flag < 5
  {
    if writes == [] then f else Written(WrittenAll(f, writes[..|writes| - 1]), writes[|writes| - 1])
  }

  /** After any sequence of writes the two fields do not overlap and the register is below 256. */
  lemma {:induction false} FieldsNeverOverlap(f: Fcsr, writes: seq<FcsrWrite>)
    requires f.Valid() && forall w :: w in writes && w.WriteFlag? ==> w.flag < 5
    ensures WrittenAll(f, writes).Valid() && WrittenAll(f, writes).Value() < 256
  {
    if writes != [] {
      hide SetFlag;
      var front, last := writes[..|writes| - 1], writes[|writes| - 1];
      FieldsNeverOverlap(f, front);
      if last.WriteFlag? {
        FlagWrite(WrittenAll(f, front).exceptionFlags, last.flag, last.on);
      }
    }
  }

  /** Reading after writing v gives v mod 256; writing back what was read changes nothing. */
  lemma FcsrReadWrite(f: Fcsr, v: Word64)
    requires f.Valid()
    ensures FcsrOf(v).Value() == v % 256
    ensures FcsrOf(f.Value()) == f
  {
    DivDiv(v, 32, 8);
    DivModUnique(v, 256, v / 256, 32 * (v / 32 % 8) + v % 32);
    DivModUnique(f.Value(), 32, f.roundingMode, f.exceptionFlags);
  }

  // ----- a hart -----

  class Thread {
    const registers: RegisterFile
    const floatRegisters: array<Word64>   // as bit patterns; nothing computes on them
    var programCounter: Word64
    var dynamicFloatRoundingMode: nat
    var floatExceptionFlags: nat
    var cycleCounter: Word64

    ghost predicate Valid()
      reads this
    {
      && registers.registers.Length == 32 && floatRegisters.Length == 32
      && floatRegisters != registers.registers
      && Csr().Valid()
    }

    function Csr(): Fcsr
      reads this
    {
      Fcsr(dynamicFloatRoundingMode, floatExceptionFlags)
    }

    /** What the run loop works on. */
    function State(): State
      requires registers.registers.Length == 32
      reads this, registers.registers
    {
      Machine.State.State(registers.registers[..], programCounter, cycleCounter)
    }

    constructor ()
      ensures Valid() && fresh(registers.registers) && fresh(floatRegisters)
      ensures State() == FRESH && Csr() == Fcsr(0, 0) && programCounter == cycleCounter == 0
      ensures forall k :: 0 <= k < 32 ==> registers.registers[k] == 0 && floatRegisters[k] == 0
    {
      var file := new RegisterFile();
      registers := file;
      floatRegisters := new Word64[32](_ => 0);
      programCounter, cycleCounter := 0, 0;
      dynamicFloatRoundingMode, floatExceptionFlags := 0, 0;
    }

    function GetInstructionIndex(): nat
      reads this
    {
      programCounter / 4
    }

    function GetNextProgramCounter(): Word64
      reads this
    {
      Next(programCounter)
    }

    method SetFloatExceptionFlag(flag: nat, value: bool)
      requires Valid() && flag < 5
      modifies this`floatExceptionFlags
      ensures Valid() && Csr() == Written(old(Csr()), WriteFlag(flag, value))
      ensures forall i: nat ::
        Bit(floatExceptionFlags, i) == if i == flag then value else Bit(old(floatExceptionFlags), i)
    {
      FlagWrite(floatExceptionFlags, flag, value);
      if value {
        floatExceptionFlags := SetBit(8, floatExceptionFlags, flag);
      } else {
        floatExceptionFlags := ClearBit(8, floatExceptionFlags, flag);
      }
    }

    function GetFloatExceptionFlag(flag: nat): (r: bool)
      requires flag < 5
      reads this
      ensures r == Bit(floatExceptionFlags, flag)
    {
      HasBitIsBit(8, floatExceptionFlags, flag);
      HasBit(8, floatExceptionFlags, flag)
    }

    function GetFloatControlStatusRegister(): (r: nat)
      requires Valid()
      reads this
      ensures r == Csr().Value()
    {
      Pow2Values();
      OrField(64, floatExceptionFlags, dynamicFloatRoundingMode, 5, 32, 3, 8);
      OrCommutes(floatExceptionFlags, Shl(64, dynamicFloatRoundingMode, 5));
      Or(Shl(64, dynamicFloatRoundingMode, 5), floatExceptionFlags)
    }

    method SetFloatControlStatusRegister(value: Word64)
      requires Valid()
      modifies this`dynamicFloatRoundingMode, this`floatExceptionFlags
      ensures Valid() && Csr() == Written(old(Csr()), WriteRegister(value))
      ensures floatExceptionFlags == value % 32 && dynamicFloatRoundingMode == value / 32 % 8
    {
      Pow2Values();
      assert Pow2(0) == 1;
      GetBitsOf(64, value, 5, 3, 32, 8, value % 32, value / 32 % 8, value / 256);
      GetBitsOf(64, value, 0, 5, 1, 32, 0, value % 32, value / 32);
      dynamicFloatRoundingMode := GetBits(64, value, 5, 7);
      floatExceptionFlags := GetBits(64, value, 0, 4);
    }
  }
}
