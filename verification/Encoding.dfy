/** Fields and immediates of a 32-bit encoding (src/riscv/instruction.cpp:60-128).

    `Fields` splits a word at the boundaries of the R-type format of section 2.2 of the RISC-V
    Unprivileged ISA. The getters, written with the shifts and masks of `Bits`, are proved equal to
    plain arithmetic on the fields. */
module Encoding {
  import opened Bits

  datatype Fields = Fields(opcode: nat, rd: nat, funct3: nat, rs1: nat, rs2: nat, funct7: nat)
  {
    predicate Valid() {
      opcode < 128 && rd < 32 && funct3 < 8 && rs1 < 32 && rs2 < 32 && funct7 < 128
    }
  }

  function Join(f: Fields): Word32
    requires f.Valid()
  {
    f.opcode + 0x80 * f.rd + 0x1000 * f.funct3 + 0x8000 * f.rs1 + 0x10_0000 * f.rs2 + 0x200_0000 * f.funct7
  }

  /** The fields of a word. */
  ghost function Split(w: Word32): (f: Fields)
    ensures f.Valid() && Join(f) == w
  {
    SplitExists(w);
    var f: Fields :| f.Valid() && Join(f) == w;
    f
  }

  lemma SplitExists(w: Word32)
    ensures exists f: Fields :: f.Valid() && Join(f) == w
  {
    DivDiv(w, 0x80, 32);
    DivDiv(w, 0x1000, 8);
    DivDiv(w, 0x8000, 32);
    DivDiv(w, 0x10_0000, 32);
    var f := Fields(w % 0x80, w / 0x80 % 32, w / 0x1000 % 8, w / 0x8000 % 32, w / 0x10_0000 % 32, w / 0x200_0000);
    assert f.Valid() && Join(f) == w;
  }

  lemma SplitUnique(w: Word32, f: Fields)
    requires f.Valid() && Join(f) == w
    ensures Split(w) == f
  {
    var g := Split(w);
    DigitsEqual(0x80, f.opcode, AboveOpcode(f), g.opcode, AboveOpcode(g));
    DigitsEqual(32, f.rd, AboveRd(f), g.rd, AboveRd(g));
    DigitsEqual(8, f.funct3, AboveFunct3(f), g.funct3, AboveFunct3(g));
    DigitsEqual(32, f.rs1, RawI(f), g.rs1, RawI(g));
    DigitsEqual(32, f.rs2, f.funct7, g.rs2, g.funct7);
  }

  /** rs2 and funct7 together: the pattern of an I-type immediate. */
  function RawI(f: Fields): nat { f.rs2 + 32 * f.funct7 }

  function AboveFunct3(f: Fields): nat { f.rs1 + 32 * RawI(f) }
  function AboveRd(f: Fields): nat { f.funct3 + 8 * AboveFunct3(f) }
  function AboveOpcode(f: Fields): nat { f.rd + 32 * AboveRd(f) }

  lemma DigitsEqual(base: int, digit: nat, rest: nat, digit': nat, rest': nat)
    requires digit < base && digit' < base && base * rest + digit == base * rest' + digit'
    ensures digit == digit' && rest == rest'
  {
    DivModUnique(base * rest + digit, base, rest, digit);
    DivModUnique(base * rest + digit, base, rest', digit');
  }

  // ----- bitfields -----

  /** What each bitfield that the decoder reads is, in terms of the fields. */
  lemma Bitfields(w: Word32)
    ensures var f := Split(w);
      && GetBits(32, w, 0, 6) == f.opcode && GetBits(32, w, 7, 11) == f.rd && GetBits(32, w, 12, 14) == f.funct3
      && GetBits(32, w, 15, 19) == f.rs1 && GetBits(32, w, 20, 24) == f.rs2 && GetBits(32, w, 25, 31) == f.funct7
  {
    Pow2Values();
    var f := Split(w);
    GetBitsOf(32, w, 0, 7, 1, 0x80, 0, f.opcode, AboveOpcode(f));
    GetBitsOf(32, w, 7, 5, 0x80, 32, f.opcode, f.rd, AboveRd(f));
    var below12 := f.opcode + 0x80 * f.rd;
    GetBitsOf(32, w, 12, 3, 0x1000, 8, below12, f.funct3, AboveFunct3(f));
    var below15 := below12 + 0x1000 * f.funct3;
    GetBitsOf(32, w, 15, 5, 0x8000, 32, below15, f.rs1, RawI(f));
    var below20 := below15 + 0x8000 * f.rs1;
    GetBitsOf(32, w, 20, 5, 0x10_0000, 32, below20, f.rs2, f.funct7);
    GetBitsOf(32, w, 25, 7, 0x200_0000, 0x80, below20 + 0x10_0000 * f.rs2, f.funct7, 0);
  }

  /** The bitfields that the immediates are assembled from. */
  lemma ImmediateBitfields(w: Word32)
    ensures var f := Split(w);
      && GetBits(32, w, 31, 31) == f.funct7 / 64 && GetBits(32, w, 25, 30) == f.funct7 % 64
      && GetBits(32, w, 21, 24) == f.rs2 / 2 && GetBits(32, w, 20, 20) == f.rs2 % 2
      && GetBits(32, w, 8, 11) == f.rd / 2 && GetBits(32, w, 7, 7) == f.rd % 2
  {
    Pow2Values();
    var f := Split(w);
    var below20 := f.opcode + 0x80 * f.rd + 0x1000 * f.funct3 + 0x8000 * f.rs1;
    var below25 := below20 + 0x10_0000 * f.rs2;
    GetBitsOf(32, w, 7, 1, 0x80, 2, f.opcode, f.rd % 2, f.rd / 2 + 16 * AboveRd(f));
    GetBitsOf(32, w, 8, 4, 0x100, 16, f.opcode + 0x80 * (f.rd % 2), f.rd / 2, AboveRd(f));
    GetBitsOf(32, w, 20, 1, 0x10_0000, 2, below20, f.rs2 % 2, f.rs2 / 2 + 16 * f.funct7);
    GetBitsOf(32, w, 21, 4, 0x20_0000, 16, below20 + 0x10_0000 * (f.rs2 % 2), f.rs2 / 2, f.funct7);
    GetBitsOf(32, w, 25, 6, 0x200_0000, 64, below25, f.funct7 % 64, f.funct7 / 64);
    GetBitsOf(32, w, 31, 1, 0x8000_0000, 2, below25 + 0x200_0000 * (f.funct7 % 64), f.funct7 / 64, 0);
  }

  lemma WideBitfields(w: Word32)
    ensures var f := Split(w);
      && GetBits(32, w, 12, 19) == f.funct3 + 8 * f.rs1
      && GetBits(32, w, 20, 30) == f.rs2 + 32 * (f.funct7 % 64)
      && GetBits(32, w, 21, 30) == f.rs2 / 2 + 16 * (f.funct7 % 64)
      && GetBits(32, w, 20, 31) == RawI(f) && GetBits(32, w, 12, 31) == AboveRd(f)
  {
    Pow2Values();
    var f := Split(w);
    var below12 := f.opcode + 0x80 * f.rd;
    var below20 := below12 + 0x1000 * f.funct3 + 0x8000 * f.rs1;
    GetBitsOf(32, w, 12, 8, 0x1000, 0x100, below12, f.funct3 + 8 * f.rs1, RawI(f));
    GetBitsOf(32, w, 12, 20, 0x1000, 0x10_0000, below12, AboveRd(f), 0);
    GetBitsOf(32, w, 20, 11, 0x10_0000, 0x800, below20, f.rs2 + 32 * (f.funct7 % 64), f.funct7 / 64);
    GetBitsOf(32, w, 20, 12, 0x10_0000, 0x1000, below20, RawI(f), 0);
    GetBitsOf(32, w, 21, 10, 0x20_0000, 0x400, below20 + 0x10_0000 * (f.rs2 % 2),
      f.rs2 / 2 + 16 * (f.funct7 % 64), f.funct7 / 64);
  }

  // ----- the getters -----

  function GetOpcode(encoded: Word32): (r: nat)
    ensures r == Split(encoded).opcode
  {
    Bitfields(encoded); GetBits(32, encoded, 0, 6)
  }

  function GetFunct3(encoded: Word32): (r: nat)
    ensures r == Split(encoded).funct3
  {
    Bitfields(encoded); GetBits(32, encoded, 12, 14)
  }

  function GetFunct7(encoded: Word32): (r: nat)
    ensures r == Split(encoded).funct7
  {
    Bitfields(encoded); GetBits(32, encoded, 25, 31)
  }

  function GetDestinationRegister(encoded: Word32): (r: nat)
    ensures r == Split(encoded).rd
  {
    Bitfields(encoded); GetBits(32, encoded, 7, 11)
  }

  function GetSourceRegister1(encoded: Word32): (r: nat)
    ensures r == Split(encoded).rs1
  {
    Bitfields(encoded); GetBits(32, encoded, 15, 19)
  }

  function GetSourceRegister2(encoded: Word32): (r: nat)
    ensures r == Split(encoded).rs2
  {
    Bitfields(encoded); GetBits(32, encoded, 20, 24)
  }

  function RawS(f: Fields): nat { f.rd + 32 * f.funct7 }

  function RawB(f: Fields): nat {
    2 * (f.rd / 2) + 32 * (f.funct7 % 64) + 0x800 * (f.rd % 2) + 0x1000 * (f.funct7 / 64)
  }

  function RawU(f: Fields): nat { 0x1000 * AboveRd(f) }

  function RawJ(f: Fields): nat {
    2 * (f.rs2 / 2 + 16 * (f.funct7 % 64)) + 0x800 * (f.rs2 % 2) + 0x1000 * (f.funct3 + 8 * f.rs1)
    + 0x10_0000 * (f.funct7 / 64)
  }

  // The patterns of the immediates that are put together from several bitfields, before sign extension.

  function PatternS(bits0: nat, bits5: nat): (r: nat)
    requires bits0 < 32 && bits5 < 0x80
    ensures r == bits0 + 32 * bits5
  {
    hide Or, Shl;
    Pow2Values();
    OrField(32, bits0, bits5, 5, 32, 7, 0x80);
    Or(bits0, Shl(32, bits5, 5))
  }

  function PatternB(bits1: nat, bits5: nat, bit11: nat, bit12: nat): (r: nat)
    requires bits1 < 16 && bits5 < 64 && bit11 < 2 && bit12 < 2
    ensures r == 2 * bits1 + 32 * bits5 + 0x800 * bit11 + 0x1000 * bit12
  {
    hide Or, Shl;
    Pow2Values();
    OrField(32, 0, bits1, 1, 2, 4, 16);
    OrField(32, 2 * bits1, bits5, 5, 32, 6, 64);
    OrField(32, 2 * bits1 + 32 * bits5, bit11, 11, 0x800, 1, 2);
    OrField(32, 2 * bits1 + 32 * bits5 + 0x800 * bit11, bit12, 12, 0x1000, 1, 2);
    Or(Or(Or(Shl(32, bits1, 1), Shl(32, bits5, 5)), Shl(32, bit11, 11)), Shl(32, bit12, 12))
  }

  function PatternJ(bits1: nat, bit11: nat, bits12: nat, bit20: nat): (r: nat)
    requires bits1 < 0x400 && bit11 < 2 && bits12 < 0x100 && bit20 < 2
    ensures r == 2 * bits1 + 0x800 * bit11 + 0x1000 * bits12 + 0x10_0000 * bit20
  {
    hide Or, Shl;
    Pow2Values();
    OrField(32, 0, bits1, 1, 2, 10, 0x400);
    OrField(32, 2 * bits1, bit11, 11, 0x800, 1, 2);
    OrField(32, 2 * bits1 + 0x800 * bit11, bits12, 12, 0x1000, 8, 0x100);
    OrField(32, 2 * bits1 + 0x800 * bit11 + 0x1000 * bits12, bit20, 20, 0x10_0000, 1, 2);
    Or(Or(Or(Shl(32, bits1, 1), Shl(32, bit11, 11)), Shl(32, bits12, 12)), Shl(32, bit20, 20))
  }

  lemma SignExtendFrom(pattern: nat)
    ensures pattern < 0x1000 ==> SignExtend(32, pattern, 11) == TwosComplement(0x800, pattern)
    ensures pattern < 0x2000 ==> SignExtend(32, pattern, 12) == TwosComplement(0x1000, pattern)
    ensures pattern < 0x20_0000 ==> SignExtend(32, pattern, 20) == TwosComplement(0x10_0000, pattern)
  {
    hide SignExtend;
    Pow2Values();
    if pattern < 0x1000 { SignExtendPattern(32, pattern, 11, 0x800); }
    if pattern < 0x2000 { SignExtendPattern(32, pattern, 12, 0x1000); }
    if pattern < 0x20_0000 { SignExtendPattern(32, pattern, 20, 0x10_0000); }
  }

  function GetImmediateI(encoded: Word32): (r: int)
    ensures r == TwosComplement(0x800, RawI(Split(encoded)))
  {
    hide GetBits, SignExtend, PatternS, PatternB, PatternJ;
    WideBitfields(encoded);
    var pattern := GetBits(32, encoded, 20, 31);
    SignExtendFrom(pattern);
    SignExtend(32, pattern, 11)
  }

  function GetImmediateS(encoded: Word32): (r: int)
    ensures r == TwosComplement(0x800, RawS(Split(encoded)))
  {
    hide GetBits, SignExtend, PatternS, PatternB, PatternJ;
    Bitfields(encoded);
    var pattern := PatternS(GetBits(32, encoded, 7, 11), GetBits(32, encoded, 25, 31));
    SignExtendFrom(pattern);
    SignExtend(32, pattern, 11)
  }

  function GetImmediateB(encoded: Word32): (r: int)
    ensures r == TwosComplement(0x1000, RawB(Split(encoded)))
  {
    hide GetBits, SignExtend, PatternS, PatternB, PatternJ;
    ImmediateBitfields(encoded);
    var pattern := PatternB(
      GetBits(32, encoded, 8, 11), GetBits(32, encoded, 25, 30), GetBits(32, encoded, 7, 7),
      GetBits(32, encoded, 31, 31));
    SignExtendFrom(pattern);
    SignExtend(32, pattern, 12)
  }

  function GetImmediateU(encoded: Word32): (r: int)
    ensures r == TwosComplement(0x8000_0000, RawU(Split(encoded)))
  {
    Pow2Values(); WideBitfields(encoded);
    OrField(32, 0, GetBits(32, encoded, 12, 31), 12, 0x1000, 20, 0x10_0000);
    Signed(32, Shl(32, GetBits(32, encoded, 12, 31), 12))
  }

  function GetImmediateJ(encoded: Word32): (r: int)
    ensures r == TwosComplement(0x10_0000, RawJ(Split(encoded)))
  {
    hide GetBits, SignExtend, PatternS, PatternB, PatternJ;
    ImmediateBitfields(encoded); WideBitfields(encoded);
    var pattern := PatternJ(
      GetBits(32, encoded, 21, 30), GetBits(32, encoded, 20, 20), GetBits(32, encoded, 12, 19),
      GetBits(32, encoded, 31, 31));
    SignExtendFrom(pattern);
    SignExtend(32, pattern, 20)
  }

  // Section 2.3, figure 2.4: each immediate is the weighted sum of its bitfields, bit 31 of the
  // instruction always being the sign.

  lemma ImmediateISum(w: Word32)
    ensures -0x800 <= GetImmediateI(w) < 0x800
    ensures GetImmediateI(w) ==
      GetBits(32, w, 20, 20) + 2 * GetBits(32, w, 21, 24) + 32 * GetBits(32, w, 25, 30) - 0x800 * GetBits(32, w, 31, 31)
  {
    hide GetBits, GetImmediateI;
    ImmediateBitfields(w);
  }

  lemma ImmediateSSum(w: Word32)
    ensures -0x800 <= GetImmediateS(w) < 0x800
    ensures GetImmediateS(w) ==
      GetBits(32, w, 7, 7) + 2 * GetBits(32, w, 8, 11) + 32 * GetBits(32, w, 25, 30) - 0x800 * GetBits(32, w, 31, 31)
  {
    hide GetBits, GetImmediateS;
    ImmediateBitfields(w);
  }

  lemma ImmediateBSum(w: Word32)
    ensures -0x1000 <= GetImmediateB(w) <= 0xffe && GetImmediateB(w) % 2 == 0
    ensures GetImmediateB(w) ==
      2 * GetBits(32, w, 8, 11) + 32 * GetBits(32, w, 25, 30) + 0x800 * GetBits(32, w, 7, 7)
      - 0x1000 * GetBits(32, w, 31, 31)
  {
    hide GetBits, GetImmediateB, RawB, TwosComplement;
    ImmediateBitfields(w);
    BranchPattern(Split(w));
  }

  lemma BranchPattern(f: Fields)
    requires f.Valid()
    ensures var value := TwosComplement(0x1000, RawB(f));
      && -0x1000 <= value <= 0xffe && value % 2 == 0
      && value == 2 * (f.rd / 2) + 32 * (f.funct7 % 64) + 0x800 * (f.rd % 2) - 0x1000 * (f.funct7 / 64)
  {
    BranchSum(f.rd / 2, f.rd % 2, f.funct7 % 64, f.funct7 / 64);
  }

  lemma BranchSum(bits1: nat, bit11: nat, bits5: nat, sign: nat)
    requires bits1 < 16 && bit11 < 2 && bits5 < 64 && sign < 2
    ensures var value := TwosComplement(0x1000, 2 * bits1 + 32 * bits5 + 0x800 * bit11 + 0x1000 * sign);
      && -0x1000 <= value <= 0xffe && value % 2 == 0
      && value == 2 * bits1 + 32 * bits5 + 0x800 * bit11 - 0x1000 * sign
  {
  }

  lemma ImmediateUSum(w: Word32)
    ensures -0x8000_0000 <= GetImmediateU(w) < 0x8000_0000 && GetImmediateU(w) % 0x1000 == 0
    ensures GetImmediateU(w) ==
      0x1000 * GetBits(32, w, 12, 19) + 0x10_0000 * GetBits(32, w, 20, 30) - 0x8000_0000 * GetBits(32, w, 31, 31)
  {
    hide GetBits, GetImmediateU, RawU, TwosComplement;
    ImmediateBitfields(w);
    WideBitfields(w);
    UpperPattern(Split(w));
  }

  lemma UpperPattern(f: Fields)
    requires f.Valid()
    ensures var value := TwosComplement(0x8000_0000, RawU(f));
      && -0x8000_0000 <= value < 0x8000_0000 && value % 0x1000 == 0
      && value == 0x1000 * (f.funct3 + 8 * f.rs1) + 0x10_0000 * (f.rs2 + 32 * (f.funct7 % 64))
                  - 0x8000_0000 * (f.funct7 / 64)
  {
    UpperSum(f.funct3 + 8 * f.rs1 + 0x100 * f.rs2 + 0x2000 * (f.funct7 % 64), f.funct7 / 64);
  }

  lemma UpperSum(bits12: nat, sign: nat)
    requires bits12 < 0x8_0000 && sign < 2
    ensures var value := TwosComplement(0x8000_0000, 0x1000 * (bits12 + 0x8_0000 * sign));
      && -0x8000_0000 <= value < 0x8000_0000 && value % 0x1000 == 0
      && value == 0x1000 * bits12 - 0x8000_0000 * sign
  {
  }

  lemma ImmediateJSum(w: Word32)
    ensures -0x10_0000 <= GetImmediateJ(w) <= 0xf_fffe && GetImmediateJ(w) % 2 == 0
    ensures GetImmediateJ(w) ==
      2 * GetBits(32, w, 21, 24) + 32 * GetBits(32, w, 25, 30) + 0x800 * GetBits(32, w, 20, 20)
      + 0x1000 * GetBits(32, w, 12, 19) - 0x10_0000 * GetBits(32, w, 31, 31)
  {
    hide GetBits, GetImmediateJ, RawJ, TwosComplement;
    ImmediateBitfields(w);
    WideBitfields(w);
    JumpPattern(Split(w));
  }

  lemma JumpPattern(f: Fields)
    requires f.Valid()
    ensures var value := TwosComplement(0x10_0000, RawJ(f));
      && -0x10_0000 <= value <= 0xf_fffe && value % 2 == 0
      && value == 2 * (f.rs2 / 2) + 32 * (f.funct7 % 64) + 0x800 * (f.rs2 % 2)
                  + 0x1000 * (f.funct3 + 8 * f.rs1) - 0x10_0000 * (f.funct7 / 64)
  {
    JumpSum(f.rs2 / 2, f.rs2 % 2, f.funct7 % 64, f.funct3 + 8 * f.rs1, f.funct7 / 64);
  }

  lemma JumpSum(bits1: nat, bit11: nat, bits5: nat, bits12: nat, sign: nat)
    requires bits1 < 16 && bit11 < 2 && bits5 < 64 && bits12 < 256 && sign < 2
    ensures var value := TwosComplement(0x10_0000,
        2 * (bits1 + 16 * bits5) + 0x800 * bit11 + 0x1000 * bits12 + 0x10_0000 * sign);
      && -0x10_0000 <= value <= 0xf_fffe && value % 2 == 0
      && value == 2 * bits1 + 32 * bits5 + 0x800 * bit11 + 0x1000 * bits12 - 0x10_0000 * sign
  {
  }
}
