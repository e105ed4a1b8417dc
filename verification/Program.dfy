/** Whole programs: `decodeInstructions` (src/riscv/instruction.cpp:52-56, 1067-1093) and what its result
    says about the bytes it was given. */
module Program {
  import opened Bits
  import opened Memory
  import opened Encoding
  import opened Instructions
  import opened Codec
  import opened Decoder
  import opened Results

  datatype DecodeError =
    | SizeNotMultipleOf4
    | CompressedInstruction
    | UnknownInstruction(encoded: Word32)

  predicate IsEncodingCompressed(bytes: seq<Byte>)
    requires |bytes| > 0
  {
    And(bytes[0], 3) != 3
  }

  /** Word `k` of a program. */
  function WordAt(bytes: seq<Byte>, k: nat): Word32
    requires 4 * k + 4 <= |bytes|
  {
    LittleEndianBound(bytes[4 * k..4 * k + 4]);
    Pow2Values();
    LittleEndian(bytes[4 * k..4 * k + 4])
  }

  /** What is to be returned for a sequence of whole words: the first offending word decides the error. */
  ghost function DecodeWords(bytes: seq<Byte>): Result<seq<Instruction>, DecodeError>
  {
    if |bytes| < 4 then Success([])
    else if IsEncodingCompressed(bytes) then Failure(CompressedInstruction)
    else
      match Decode(WordAt(bytes, 0))
      case None => Failure(UnknownInstruction(WordAt(bytes, 0)))
      case Some(first) => Prepend([first], DecodeWords(bytes[4..]))
  }

  function Prepend(front: seq<Instruction>, rest: Result<seq<Instruction>, DecodeError>)
    : Result<seq<Instruction>, DecodeError>
  {
    match rest
    case Success(instructions) => Success(front + instructions)
    case Failure(_) => rest
  }

  ghost function DecodeProgram(bytes: seq<Byte>): Result<seq<Instruction>, DecodeError> {
    if |bytes| % 4 != 0 then Failure(SizeNotMultipleOf4) else DecodeWords(bytes)
  }

  method DecodeInstructions(program: Span) returns (r: Result<seq<Instruction>, DecodeError>)
    ensures r == DecodeProgram(program)
  {
    hide Decode, LoadU32, LittleEndian, IsEncodingCompressed;
    if |program| % 4 != 0 {
      return Failure(SizeNotMultipleOf4);
    }
    var instructions: seq<Instruction> := [];
    var programOffset := 0;
    assert program[0..] == program;
    PrependNothing(DecodeWords(program));
    while programOffset < |program|
      invariant 0 <= programOffset <= |program| && programOffset % 4 == 0
      invariant DecodeWords(program) == Prepend(instructions, DecodeWords(program[programOffset..]))
    {
      ghost var rest := program[programOffset..];
      SameCompression(program, programOffset);
      assert program[programOffset..programOffset + 4] == rest[0..4];
      if IsEncodingCompressed(program[programOffset..programOffset + 4]) {
        return Failure(CompressedInstruction);
      }
      var encoded := LoadU32(program, programOffset);
      var instruction := new InstructionRef();
      var ok := DecodeInstruction(instruction, encoded);
      if !ok {
        return Failure(UnknownInstruction(encoded));
      }
      assert rest[4..] == program[programOffset + 4..];
      PrependPrepend(instructions, [instruction.Value()], DecodeWords(rest[4..]));
      instructions := instructions + [instruction.Value()];
      programOffset := programOffset + 4;
    }
    assert program[programOffset..] == [];
    assert instructions + [] == instructions;
    r := Success(instructions);
  }

  lemma SameCompression(program: seq<Byte>, offset: nat)
    requires offset + 4 <= |program|
    ensures IsEncodingCompressed(program[offset..offset + 4]) == IsEncodingCompressed(program[offset..])
  {
  }

  lemma PrependNothing(rest: Result<seq<Instruction>, DecodeError>)
    ensures Prepend([], rest) == rest
  {
    if rest.Success? {
      assert [] + rest.value == rest.value;
    }
  }

  lemma PrependPrepend(a: seq<Instruction>, b: seq<Instruction>, rest: Result<seq<Instruction>, DecodeError>)
    ensures Prepend(a, Prepend(b, rest)) == Prepend(a + b, rest)
  {
    if rest.Success? {
      assert a + (b + rest.value) == a + b + rest.value;
    }
  }

  // ----- word by word -----

  /** The two low bits of the first byte are those of the word, so a compressed encoding never decodes. */
  lemma CompressedNeverDecodes(bytes: seq<Byte>)
    requires |bytes| >= 4
    ensures IsEncodingCompressed(bytes) <==> WordAt(bytes, 0) % 4 != 3
    ensures IsEncodingCompressed(bytes) ==> Decode(WordAt(bytes, 0)) == None
  {
    hide And, Decode;
    var w := WordAt(bytes, 0);
    assert bytes[0..4][1..] == bytes[1..4];
    assert w == bytes[0] + 256 * LittleEndian(bytes[1..4]);
    LowTwoBits(bytes[0]);
    SmallPow2Values();
    AcceptedLowBits(w);
  }

  lemma AcceptedLowBits(w: Word32)
    ensures Decode(w).Some? ==> w % 4 == 3
  {
    if Decode(w).Some? {
      hide Matches, Build;
      var t :| Matches(t, Split(w)) && Decode(w) == Some(Build(t, Split(w)));
      OpcodeLowBits(t, Split(w));
    }
  }

  lemma OpcodeLowBits(t: Type, f: Fields)
    requires f.Valid() && Matches(t, f)
    ensures Join(f) % 4 == 3
  {
    hide MatchesPattern;
    assert f.opcode % 4 == 3;
    DivModUnique(Join(f), 4, f.opcode / 4 + 0x20 * AboveOpcode(f), 3);
  }

  lemma TailWords(bytes: seq<Byte>)
    requires |bytes| >= 4
    ensures forall k: nat :: 4 * k + 4 <= |bytes[4..]| ==> WordAt(bytes[4..], k) == WordAt(bytes, k + 1)
  {
    forall k: nat | 4 * k + 4 <= |bytes[4..]|
      ensures WordAt(bytes[4..], k) == WordAt(bytes, k + 1)
    {
      assert bytes[4..][4 * k..4 * k + 4] == bytes[4 * (k + 1)..4 * (k + 1) + 4];
    }
  }

  /** A program is accepted exactly when its size is a multiple of 4 and every word decodes; it then
      yields one instruction a word, in order. */
  lemma {:induction false} ProgramAccepted(bytes: seq<Byte>)
    ensures DecodeProgram(bytes).Success? <==>
      |bytes| % 4 == 0 && forall k: nat :: 4 * k + 4 <= |bytes| ==> Decode(WordAt(bytes, k)).Some?
    ensures DecodeProgram(bytes).Success? ==>
      var instructions := DecodeProgram(bytes).value;
      && |instructions| == |bytes| / 4
      && forall k :: 0 <= k < |instructions| ==> Decode(WordAt(bytes, k)) == Some(instructions[k])
  {
    hide Decode, WordAt, IsEncodingCompressed;
    if |bytes| % 4 == 0 && bytes != [] {
      var tail := bytes[4..];
      ProgramAccepted(tail);
      TailWords(bytes);
      CompressedNeverDecodes(bytes);
      if DecodeProgram(bytes).Success? {
        forall k: nat | 4 * k + 4 <= |bytes|
          ensures Decode(WordAt(bytes, k)) == Some(DecodeProgram(bytes).value[k])
        {
          if k > 0 {
            assert WordAt(tail, k - 1) == WordAt(bytes, k);
          }
        }
      } else if DecodeWords(tail).Failure? {
        var k: nat :| 4 * k + 4 <= |tail| && Decode(WordAt(tail, k)).None?;
        assert Decode(WordAt(bytes, k + 1)).None?;
      }
    }
  }

  /** Which error: the first word that does not decode decides it. */
  lemma {:induction false} FirstBadWord(bytes: seq<Byte>)
    requires |bytes| % 4 == 0 && DecodeProgram(bytes).Failure?
    ensures exists k: nat :: 4 * k + 4 <= |bytes| && IsFirstBadWord(bytes, k)
              && DecodeProgram(bytes).error == ErrorOf(WordAt(bytes, k))
  {
    hide Decode, WordAt, IsEncodingCompressed;
    CompressedNeverDecodes(bytes);
    TailWords(bytes);
    if Decode(WordAt(bytes, 0)).None? {
      assert IsFirstBadWord(bytes, 0);
    } else {
      var tail := bytes[4..];
      FirstBadWord(tail);
      var k: nat :| 4 * k + 4 <= |tail| && IsFirstBadWord(tail, k)
        && DecodeProgram(tail).error == ErrorOf(WordAt(tail, k));
      assert WordAt(tail, k) == WordAt(bytes, k + 1);
      forall j | 0 <= j < k + 1
        ensures Decode(WordAt(bytes, j)).Some?
      {
        if j > 0 {
          assert WordAt(tail, j - 1) == WordAt(bytes, j);
        }
      }
      assert IsFirstBadWord(bytes, k + 1);
    }
  }

  function ErrorOf(w: Word32): DecodeError {
    if w % 4 != 3 then CompressedInstruction else UnknownInstruction(w)
  }

  ghost predicate IsFirstBadWord(bytes: seq<Byte>, k: nat)
    requires 4 * k + 4 <= |bytes|
  {
    Decode(WordAt(bytes, k)).None? && forall j :: 0 <= j < k ==> Decode(WordAt(bytes, j)).Some?
  }

  /** Decoding a concatenation of whole words decodes the parts in turn. */
  lemma {:induction false} DecodeConcat(a: seq<Byte>, b: seq<Byte>)
    requires |a| % 4 == 0 && |b| % 4 == 0
    ensures DecodeProgram(a + b) == match DecodeProgram(a)
      case Success(front) => Prepend(front, DecodeProgram(b))
      case Failure(_) => DecodeProgram(a)
  {
    hide Decode, WordAt, IsEncodingCompressed;
    if a == [] {
      assert a + b == b;
      PrependNothing(DecodeProgram(b));
    } else {
      SameFirstWord(a, b);
      assert (a + b)[4..] == a[4..] + b;
      DecodeConcat(a[4..], b);
      if Decode(WordAt(a, 0)).Some? && DecodeWords(a[4..]).Success? {
        PrependPrepend([Decode(WordAt(a, 0)).value], DecodeWords(a[4..]).value, DecodeWords(b));
      }
    }
  }

  lemma SameFirstWord(a: seq<Byte>, b: seq<Byte>)
    requires |a| >= 4
    ensures WordAt(a + b, 0) == WordAt(a, 0) && IsEncodingCompressed(a + b) == IsEncodingCompressed(a)
  {
    assert (a + b)[0..4] == a[0..4];
  }

  // ----- round trips and the kernel, lifted to programs -----

  function EncodeProgram(instructions: seq<Instruction>): (bytes: seq<Byte>)
    requires forall i :: i in instructions ==> WellFormed(i)
    ensures |bytes| == 4 * |instructions|
  {
    if instructions == [] then [] else Bytes(Encode(instructions[0]), 4) + EncodeProgram(instructions[1..])
  }

  /** Storing the encodings of well-formed instructions one after the other and decoding the bytes
      gives the instructions back. */
  lemma {:induction false} ProgramRoundTrip(instructions: seq<Instruction>)
    requires forall i :: i in instructions ==> WellFormed(i)
    ensures DecodeProgram(EncodeProgram(instructions)) == Success(instructions)
  {
    hide Encode, WellFormed, Decode, WordAt, IsEncodingCompressed;
    if instructions != [] {
      var first, bytes := instructions[0], EncodeProgram(instructions);
      ProgramRoundTrip(instructions[1..]);
      DecodeEncode(first);
      FirstEncoded(instructions);
      CompressedNeverDecodes(bytes);
      assert instructions == [first] + instructions[1..];
    }
  }

  /** Decoding a program and encoding it again restores every word up to the bits that decoding forgets. */
  lemma {:induction false} EncodeAfterDecodeProgram(bytes: seq<Byte>)
    requires DecodeProgram(bytes).Success?
    ensures forall i :: i in DecodeProgram(bytes).value ==> WellFormed(i)
    ensures var again := EncodeProgram(DecodeProgram(bytes).value);
      |again| == |bytes| && forall k: nat :: 4 * k + 4 <= |bytes| ==> WordAt(again, k) == Forget(WordAt(bytes, k))
  {
    hide Encode, WellFormed, Forget, Decode;
    var instructions := DecodeProgram(bytes).value;
    ProgramAccepted(bytes);
    forall k | 0 <= k < |instructions|
      ensures WellFormed(instructions[k]) && Encode(instructions[k]) == Forget(WordAt(bytes, k))
    {
      DecodeExactly(WordAt(bytes, k), instructions[k]);
    }
    EncodedWords(instructions);
  }

  lemma FirstEncoded(instructions: seq<Instruction>)
    requires (forall i :: i in instructions ==> WellFormed(i)) && instructions != []
    ensures WordAt(EncodeProgram(instructions), 0) == Encode(instructions[0])
    ensures EncodeProgram(instructions)[4..] == EncodeProgram(instructions[1..])
  {
    hide Encode, WellFormed;
    Pow2Values();
    LittleEndianBytes(Encode(instructions[0]), 4);
    assert EncodeProgram(instructions)[0..4] == Bytes(Encode(instructions[0]), 4);
  }

  lemma {:induction false} EncodedWords(instructions: seq<Instruction>)
    requires forall i :: i in instructions ==> WellFormed(i)
    ensures forall k :: 0 <= k < |instructions| ==> WordAt(EncodeProgram(instructions), k) == Encode(instructions[k])
  {
    if instructions != [] {
      hide Encode, WellFormed, WordAt;
      var bytes := EncodeProgram(instructions);
      EncodedWords(instructions[1..]);
      FirstEncoded(instructions);
      TailWords(bytes);
      forall k | 0 <= k < |instructions|
        ensures WordAt(bytes, k) == Encode(instructions[k])
      {
        if k > 0 {
          assert WordAt(bytes[4..], k - 1) == WordAt(bytes, k);
        }
      }
    }
  }

  /** Two accepted programs decode alike exactly when they have the same length and agree word by word
      up to the forgotten bits. */
  lemma ProgramKernel(a: seq<Byte>, b: seq<Byte>)
    requires DecodeProgram(a).Success? && DecodeProgram(b).Success?
    ensures DecodeProgram(a) == DecodeProgram(b) <==>
      |a| == |b| && forall k: nat :: 4 * k + 4 <= |a| ==> Forget(WordAt(a, k)) == Forget(WordAt(b, k))
  {
    hide Forget, Decode, WellFormed, Encode, DecodeProgram;
    var x, y := DecodeProgram(a).value, DecodeProgram(b).value;
    ProgramAccepted(a);
    ProgramAccepted(b);
    if |a| == |b| {
      forall k | 0 <= k < |x|
        ensures x[k] == y[k] <==> Forget(WordAt(a, k)) == Forget(WordAt(b, k))
      {
        DecodeExactly(WordAt(a, k), x[k]);
        DecodeExactly(WordAt(b, k), y[k]);
        DecodeExactly(WordAt(b, k), x[k]);
      }
      if DecodeProgram(a) == DecodeProgram(b) {
        assert x == y;
      } else {
        assert x != y;
        var k :| 0 <= k < |x| && x[k] != y[k];
        assert Forget(WordAt(a, k)) != Forget(WordAt(b, k));
      }
    }
  }
}
