/** What the bytes of an ELF file say (src/riscv/elf.cpp:14-120): the verdict on the file header, and the program
    header table, whose entries follow chapter 5, "Program Header", of the System V gABI (ELF-64). */
module ElfFiles {
  import opened Bits
  import opened Memory
  import opened Segments
  import opened Layout
  import opened Results

  const ELF_HEADER_SIZE: int := 64
  const ENTRY_SIZE: int := 56

  // ----- the file header -----

  /** Where the program header table starts, and how many entries it has. */
  function TableOffset(source: seq<Byte>): nat {
    if |source| < ELF_HEADER_SIZE then 0 else LittleEndian(source[32..40])
  }

  function TableCount(source: seq<Byte>): nat {
    if |source| < ELF_HEADER_SIZE then 0 else LittleEndian(source[56..58])
  }

  /** The verdict on the file header, on the bytes of the file: "\x7fELF", class 64, little-endian, version 1,
      System V; an executable for RISC-V; program header entries of 56 bytes. */
  function HeaderVerdict(source: seq<Byte>): Option<LoadError> {
    if |source| < ELF_HEADER_SIZE then Some(FileTooSmall)
    else if !(source[0..8] == [0x7f, 0x45, 0x4c, 0x46, 2, 1, 1, 0]
              && source[16..20] == [2, 0, 0xf3, 0] && source[54..56] == [56, 0]) then Some(InvalidHeader)
    else if source[24..32] != [0, 0, 0, 0, 0, 0, 0, 0] then Some(EntryNotZero)
    else if Wrap64(TableOffset(source) + ENTRY_SIZE * TableCount(source)) > |source| then
      Some(ProgramHeadersOutOfBounds)
    else None
  }

  /** A number read in little-endian order equals a constant exactly when the bytes are the constant's bytes. */
  lemma ReadsAs(s: seq<Byte>, from: nat, count: nat, value: nat)
    requires from + count <= |s| && value < Pow2(8 * count)
    ensures LittleEndian(s[from..from + count]) == value <==> s[from..from + count] == Bytes(value, count)
  {
    BytesLittleEndian(s[from..from + count]);
    LittleEndianBytes(value, count);
  }

  lemma MeansBytes(source: seq<Byte>)
    requires |source| >= ELF_HEADER_SIZE
    ensures source[0..8] == [0x7f, 0x45, 0x4c, 0x46, 2, 1, 1, 0] <==>
      LittleEndian(source[0..4]) == 0x464c457f && source[4] == 2 && source[5] == 1 && source[6] == 1 && source[7] == 0
    ensures source[16..20] == [2, 0, 0xf3, 0] <==>
      LittleEndian(source[16..18]) == 2 && LittleEndian(source[18..20]) == 243
    ensures source[54..56] == [56, 0] <==> LittleEndian(source[54..56]) == 56
    ensures source[24..32] == [0, 0, 0, 0, 0, 0, 0, 0] <==> LittleEndian(source[24..32]) == 0
  {
    hide LittleEndian, Bytes;
    Pow2Values();
    ConstantBytes();
    ReadsAs(source, 54, 2, 56);
    ReadsAs(source, 24, 8, 0);
    IdentBytes(source);
    TypeBytes(source);
  }

  lemma IdentBytes(source: seq<Byte>)
    requires |source| >= ELF_HEADER_SIZE
    ensures source[0..8] == [0x7f, 0x45, 0x4c, 0x46, 2, 1, 1, 0] <==>
      LittleEndian(source[0..4]) == 0x464c457f && source[4] == 2 && source[5] == 1 && source[6] == 1 && source[7] == 0
  {
    hide LittleEndian, Bytes;
    Pow2Values();
    ConstantBytes();
    ReadsAs(source, 0, 4, 0x464c457f);
    SplitEqual(source, 0, [0x7f, 0x45, 0x4c, 0x46], [2, 1, 1, 0]);
    FourBytes(source, 4, [2, 1, 1, 0]);
    assert [0x7f, 0x45, 0x4c, 0x46] + [2, 1, 1, 0] == [0x7f, 0x45, 0x4c, 0x46, 2, 1, 1, 0];
  }

  lemma TypeBytes(source: seq<Byte>)
    requires |source| >= ELF_HEADER_SIZE
    ensures source[16..20] == [2, 0, 0xf3, 0] <==>
      LittleEndian(source[16..18]) == 2 && LittleEndian(source[18..20]) == 243
  {
    hide LittleEndian, Bytes;
    Pow2Values();
    ConstantBytes();
    ReadsAs(source, 16, 2, 2);
    ReadsAs(source, 18, 2, 243);
    SplitEqual(source, 16, [2, 0], [0xf3, 0]);
    assert [2, 0] + [0xf3, 0] == [2, 0, 0xf3, 0];
  }

  lemma SplitEqual(s: seq<Byte>, from: nat, x: seq<Byte>, y: seq<Byte>)
    requires from + |x| + |y| <= |s|
    ensures s[from..from + |x| + |y|] == x + y <==>
      s[from..from + |x|] == x && s[from + |x|..from + |x| + |y|] == y
  {
    var a, b := s[from..from + |x|], s[from + |x|..from + |x| + |y|];
    assert s[from..from + |x| + |y|] == a + b;
    assert (a + b)[..|x|] == a && (a + b)[|x|..] == b && (x + y)[..|x|] == x && (x + y)[|x|..] == y;
  }

  lemma FourBytes(s: seq<Byte>, from: nat, x: seq<Byte>)
    requires from + 4 <= |s| && |x| == 4
    ensures s[from..from + 4] == x <==>
      s[from] == x[0] && s[from + 1] == x[1] && s[from + 2] == x[2] && s[from + 3] == x[3]
  {
  }

  lemma ConstantBytes()
    ensures Bytes(0x464c457f, 4) == [0x7f, 0x45, 0x4c, 0x46]
    ensures Bytes(2, 2) == [2, 0] && Bytes(243, 2) == [0xf3, 0] && Bytes(56, 2) == [56, 0]
    ensures Bytes(0, 8) == [0, 0, 0, 0, 0, 0, 0, 0]
  {
    MagicBytes();
    ZeroBytes();
    BytesUnfold(2, 2);
    BytesUnfold(243, 2);
    BytesUnfold(56, 2);
    BytesUnfold(0, 1);
    assert Bytes(0, 0) == [];
    hide Bytes;
  }

  lemma BytesUnfold(value: nat, count: nat)
    requires count > 0
    ensures Bytes(value, count) == [value % 256] + Bytes(value / 256, count - 1)
  {
  }

  lemma MagicBytes()
    ensures Bytes(0x464c457f, 4) == [0x7f, 0x45, 0x4c, 0x46]
  {
    BytesUnfold(0x464c457f, 4);
    BytesUnfold(0x464c45, 3);
    BytesUnfold(0x464c, 2);
    BytesUnfold(0x46, 1);
    assert Bytes(0, 0) == [];
    hide Bytes;
  }

  lemma ZeroBytes()
    ensures Bytes(0, 8) == [0, 0, 0, 0, 0, 0, 0, 0]
  {
    hide Bytes;
    forall k | 0 <= k < 8
      ensures Bytes(0, 8)[k] == 0
    {
      ByteAt(0, 8, k);
      ShrValue(0, 8 * k);
      DivModUnique(0, Pow2(8 * k), 0, 0);
    }
  }

  // ----- the program header table -----

  function SegmentAt(source: seq<Byte>, offset: nat): SegmentHeader
    requires offset + 48 <= |source|
  {
    SegmentHeader(
      LoadU32(source, offset), LoadU32(source, offset + 4), LoadU64(source, offset + 8),
      LoadU64(source, offset + 16), LoadU64(source, offset + 32), LoadU64(source, offset + 40))
  }

  /** An entry of the table as chapter 5 of the gABI lays it out; the loader uses neither the physical address nor
      the alignment. */
  function EntryBytes(h: SegmentHeader, physicalAddress: Word64, alignment: Word64): (bytes: seq<Byte>)
    ensures |bytes| == ENTRY_SIZE
  {
    Bytes(h.kind, 4) + Bytes(h.flags, 4)                                    // p_type, p_flags
    + (Bytes(h.sourceStart, 8) + Bytes(h.destinationStart, 8))              // p_offset, p_vaddr
    + (Bytes(physicalAddress, 8) + Bytes(h.sourceSize, 8))                  // p_paddr, p_filesz
    + (Bytes(h.destinationSize, 8) + Bytes(alignment, 8))                   // p_memsz, p_align
  }

  /** Reading an entry gives back the segment it was laid out from. */
  lemma EntryRoundTrip(source: seq<Byte>, offset: nat, h: SegmentHeader, physicalAddress: Word64, alignment: Word64)
    requires offset + ENTRY_SIZE <= |source|
    requires source[offset..offset + ENTRY_SIZE] == EntryBytes(h, physicalAddress, alignment)
    ensures SegmentAt(source, offset) == h
  {
    hide LoadU32, LoadU64, LittleEndian, Bytes;
    var entry := EntryBytes(h, physicalAddress, alignment);
    Pow2Values();
    EntryPart(source, offset, entry, 0, Bytes(h.kind, 4));
    EntryPart(source, offset, entry, 4, Bytes(h.flags, 4));
    EntryPart(source, offset, entry, 8, Bytes(h.sourceStart, 8));
    EntryPart(source, offset, entry, 16, Bytes(h.destinationStart, 8));
    EntryPart(source, offset, entry, 32, Bytes(h.sourceSize, 8));
    EntryPart(source, offset, entry, 40, Bytes(h.destinationSize, 8));
    LittleEndianBytes(h.kind, 4);
    LittleEndianBytes(h.flags, 4);
    LittleEndianBytes(h.sourceStart, 8);
    LittleEndianBytes(h.destinationStart, 8);
    LittleEndianBytes(h.sourceSize, 8);
    LittleEndianBytes(h.destinationSize, 8);
  }

  lemma EntryPart(source: seq<Byte>, offset: nat, entry: seq<Byte>, at: nat, part: seq<Byte>)
    requires offset + |entry| <= |source| && source[offset..offset + |entry|] == entry
    requires at + |part| <= |entry| && entry[at..at + |part|] == part
    ensures source[offset + at..offset + at + |part|] == part
  {
    var from := offset + at;
    forall k | 0 <= k < |part|
      ensures source[from..from + |part|][k] == part[k]
    {
      assert source[offset..offset + |entry|][at + k] == entry[at + k] && entry[at..at + |part|][k] == part[k];
    }
  }

  /** The table lies inside the file, by the mathematical sum. */
  predicate TableInFile(source: seq<Byte>) {
    TableOffset(source) + ENTRY_SIZE * TableCount(source) <= |source|
  }

  predicate TableWraps(source: seq<Byte>) {
    TableOffset(source) + ENTRY_SIZE * TableCount(source) >= TWO_64
  }

  function TableUpTo(source: seq<Byte>, count: nat): Headers
    requires TableOffset(source) + ENTRY_SIZE * count <= |source|
  {
    if count == 0 then []
    else TableUpTo(source, count - 1) + [SegmentAt(source, TableOffset(source) + ENTRY_SIZE * (count - 1))]
  }

  /** All entries of the program header table, in file order. */
  function TableOf(source: seq<Byte>): Headers
    requires TableInFile(source)
  {
    TableUpTo(source, TableCount(source))
  }

  lemma EntryInFile(source: Span, i: nat)
    requires TableInFile(source) && i < TableCount(source)
    ensures var offset := TableOffset(source) + ENTRY_SIZE * i;
      Wrap64(offset) == offset && offset + ENTRY_SIZE <= |source| && SegmentAt(source, offset) in TableOf(source)
  {
    hide SegmentAt, TableOffset, TableCount;
    var offset := TableOffset(source) + ENTRY_SIZE * i;
    DivModUnique(offset, TWO_64, 0, offset);
    EntryInTable(source, i, TableCount(source));
  }

  lemma {:induction false} EntryInTable(source: seq<Byte>, i: nat, count: nat)
    requires TableOffset(source) + ENTRY_SIZE * count <= |source| && i < count
    ensures SegmentAt(source, TableOffset(source) + ENTRY_SIZE * i) in TableUpTo(source, count)
    decreases count
  {
    hide SegmentAt, TableOffset;
    if i < count - 1 {
      EntryInTable(source, i, count - 1);
    }
  }

  lemma TableCountBound(source: seq<Byte>)
    ensures TableCount(source) < 0x1_0000
  {
    if |source| >= ELF_HEADER_SIZE {
      LittleEndianBound(source[56..58]);
      SmallPow2Values();
    }
  }

  lemma TableOffsetBound(source: seq<Byte>)
    ensures TableOffset(source) < TWO_64
  {
    if |source| >= ELF_HEADER_SIZE {
      LittleEndianBound(source[32..40]);
      Pow2Values();
    }
  }

  lemma TableSize(source: seq<Byte>)
    requires TableInFile(source)
    ensures |TableOf(source)| == TableCount(source) < 0x1_0000
  {
    hide TableOffset, TableCount;
    TableUpToSize(source, TableCount(source));
    TableCountBound(source);
  }

  /** The check of the table's bound, with its exact condition: a table that it accepts lies inside the file unless
      the bound wraps, and the bound wraps if and only if the first entry is already read outside the file. */
  lemma TableBoundExactly(source: File)
    requires HeaderVerdict(source).None?
    ensures TableInFile(source) <==> !TableWraps(source)
    ensures TableInFile(source) <==> (TableCount(source) > 0 ==> TableOffset(source) + 48 <= |source|)
  {
    hide TableOffset, TableCount;
    TableCountBound(source);
    TableOffsetBound(source);
    var bound := TableOffset(source) + ENTRY_SIZE * TableCount(source);
    DivModUnique(bound, TWO_64, if bound < TWO_64 then 0 else 1, if bound < TWO_64 then bound else bound - TWO_64);
  }

  lemma {:induction false} TableUpToSize(source: seq<Byte>, count: nat)
    requires TableOffset(source) + ENTRY_SIZE * count <= |source|
    ensures |TableUpTo(source, count)| == count
  {
    hide SegmentAt, TableOffset;
    if count > 0 {
      TableUpToSize(source, count - 1);
    }
  }
}
