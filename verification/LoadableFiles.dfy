/** Files with given contents: every program and every data image that fits is what some file loads, and the files on
    which wrapped sums mislead the loader exist. */
module LoadableFiles {
  import opened Bits
  import opened Memory
  import opened Segments
  import opened Images
  import opened Instructions
  import opened Codec
  import opened Program
  import opened Runs
  import opened Layout
  import opened CodedPlans
  import opened ElfFiles
  import opened ElfWriters
  import opened FilePlans
  import opened Results

  lemma SelectSnoc(table: Headers, h: SegmentHeader, executable: bool)
    ensures Select(table + [h], executable) ==
      Select(table, executable) + if Kept(h) && Executable(h) == executable then [h] else []
  {
    hide Kept, Executable;
    assert (table + [h])[..|table|] == table;
  }

  /** A data segment, if it is kept at all, beside a code segment. */
  lemma DataAndCodeArranged(d: SegmentHeader, c: SegmentHeader)
    requires d.flags % 2 == 0 && Kept(c) && c.flags % 2 == 1
    ensures Arranged([d, c], if Kept(d) then [d] else [], [c])
  {
    hide Kept, Executable;
    ExecutableIsLowBit(d);
    ExecutableIsLowBit(c);
    assert [] + [d] == [d] && [d] + [c] == [d, c];
    SelectSnoc([], d, false);
    SelectSnoc([d], c, false);
    SelectSnoc([], d, true);
    SelectSnoc([d], c, true);
  }

  /** Lists with a single element have a single arrangement. */
  lemma OnlyArrangement(table: Headers, data: Headers, code: Headers, data': Headers, code': Headers)
    requires Arranged(table, data, code) && Arranged(table, data', code') && |data| <= 1 && |code| <= 1
    ensures data' == data && code' == code
  {
    hide Select, Sorted;
    OneElement(data, data');
    OneElement(code, code');
  }

  lemma OneElement(xs: Headers, ys: Headers)
    requires multiset(xs) == multiset(ys) && |xs| <= 1
    ensures xs == ys
  {
    SameLength(xs, ys);
    if xs != [] {
      assert ys[0] in multiset(ys);
    }
  }

  // ----- a file for every program and every data image -----

  const LOADABLE_START: int := ELF_HEADER_SIZE + 2 * ENTRY_SIZE

  predicate FitsAFile(data: seq<Byte>, p: seq<Instruction>) {
    LOADABLE_START + |data| + 4 * |p| < OBJECT_LIMIT
  }

  function DataHeader(data: seq<Byte>, p: seq<Instruction>): SegmentHeader
    requires FitsAFile(data, p)
  {
    SegmentHeader(1, 6, LOADABLE_START, 0, |data|, |data|)
  }

  function CodeHeader(data: seq<Byte>, p: seq<Instruction>): SegmentHeader
    requires FitsAFile(data, p)
  {
    SegmentHeader(1, 5, LOADABLE_START + |data|, 0, 4 * |p|, 4 * |p|)
  }

  function LoadableFile(data: seq<Byte>, p: seq<Instruction>): (source: seq<Byte>)
    requires AllWellFormed(p) && FitsAFile(data, p)
  {
    FileWith([DataHeader(data, p), CodeHeader(data, p)], data + EncodeProgram(p))
  }

  /** The file round trip: for every program of well-formed instructions and every data image that fits, the file
      written for them is one that loads exactly them, whatever sorting does, and no sum of it wraps. */
  lemma FileRoundTrip(data: seq<Byte>, p: seq<Instruction>, free: Span, sorted: Headers, sortedCode: Headers)
    requires p != [] && AllWellFormed(p) && FitsAFile(data, p) && |data| <= |free|
    ensures |LoadableFile(data, p)| < OBJECT_LIMIT
    ensures var source: File := LoadableFile(data, p);
      && NothingWraps(source)
      && FilePlan(source, free) == Map(data + free[|data|..], Success(p))
      && (ArrangedFrom(source, sorted, sortedCode) ==>
            CodedFilePlan(source, sorted, sortedCode, free) == Map(data + free[|data|..], Success(p)))
  {
    hide HeaderVerdict, TableOf, TableInFile, TableWraps, FileWith, EncodeProgram, CodedPlan, WellFormed, PlanFor,
      ArrangedFrom;
    var d, c, source := DataHeader(data, p), CodeHeader(data, p), LoadableFile(data, p);
    var list := if Kept(d) then [d] else [];
    TableRoundTrip([d, c], data + EncodeProgram(p));
    LoadableWraps(data, p);
    LoadablePlan(data, p, free);
    LoadableArranged(source, data, p);
    UnwrappedFollowsPlan(source, list, [c], free);
    if ArrangedFrom(source, sorted, sortedCode) {
      UnwrappedFollowsPlan(source, sorted, sortedCode, free);
    }
  }

  lemma LoadableArranged(source: File, data: seq<Byte>, p: seq<Instruction>)
    requires p != [] && FitsAFile(data, p) && HeaderVerdict(source).None? && TableInFile(source)
    requires TableOf(source) == [DataHeader(data, p), CodeHeader(data, p)]
    ensures var d, c := DataHeader(data, p), CodeHeader(data, p);
      ArrangedFrom(source, if Kept(d) then [d] else [], [c])
  {
    hide HeaderVerdict, TableOf, TableInFile;
    DataAndCodeArranged(DataHeader(data, p), CodeHeader(data, p));
  }

  lemma LoadableWraps(data: seq<Byte>, p: seq<Instruction>)
    requires FitsAFile(data, p)
    ensures NoSegmentWraps([DataHeader(data, p), CodeHeader(data, p)], LOADABLE_START + |data| + 4 * |p|)
  {
  }

  lemma LoadablePlan(data: seq<Byte>, p: seq<Instruction>, free: seq<Byte>)
    requires p != [] && AllWellFormed(p) && FitsAFile(data, p) && |data| <= |free|
    ensures var d, c := DataHeader(data, p), CodeHeader(data, p);
      CodedPlan(LoadableFile(data, p), [d, c], if Kept(d) then [d] else [], [c], free) ==
        Map(data + free[|data|..], Success(p))
  {
    hide DecodeProgram, EncodeProgram, FileWith, WellFormed, CopyAll, CopiesFit, ListDataVerdict, ListCodeVerdict,
      EndsInFile, DataHeader, CodeHeader, Kept, LastEnd, Zeros, Zeroed;
    var d, c, source := DataHeader(data, p), CodeHeader(data, p), LoadableFile(data, p);
    LoadableBytes(data, p);
    LoadablePasses(data, p, |source|);
    LoadableCopies(source, data, p, free);
    ProgramRoundTrip(p);
  }

  lemma LoadablePasses(data: seq<Byte>, p: seq<Instruction>, fileSize: nat)
    requires p != [] && FitsAFile(data, p) && fileSize == LOADABLE_START + |data| + 4 * |p|
    ensures var d, c := DataHeader(data, p), CodeHeader(data, p);
      var list := if Kept(d) then [d] else [];
      && EndsInFile([d, c], fileSize) && ListDataVerdict(list).None? && ListCodeVerdict([c]).None?
      && LastEnd(list) == |data| && LastEnd([c]) == 4 * |p|
  {
    EndIsExact(DataHeader(data, p));
    EndIsExact(CodeHeader(data, p));
  }

  lemma LoadableBytes(data: seq<Byte>, p: seq<Instruction>)
    requires AllWellFormed(p) && FitsAFile(data, p)
    ensures var source, codeStart := LoadableFile(data, p), LOADABLE_START + |data|;
      && |source| == codeStart + 4 * |p|
      && source[LOADABLE_START..codeStart] == data && source[codeStart..] == EncodeProgram(p)
  {
    hide EncodeProgram, FileWith, WellFormed, HeaderVerdict, TableOf, TableInFile, TableWraps;
    var source, codeStart := LoadableFile(data, p), LOADABLE_START + |data|;
    TableRoundTrip([DataHeader(data, p), CodeHeader(data, p)], data + EncodeProgram(p));
    assert source[LOADABLE_START..codeStart] == source[LOADABLE_START..][..|data|];
    assert source[codeStart..] == source[LOADABLE_START..][|data|..];
  }

  lemma LoadableCopies(source: seq<Byte>, data: seq<Byte>, p: seq<Instruction>, free: seq<Byte>)
    requires AllWellFormed(p) && FitsAFile(data, p) && |data| <= |free|
    requires var codeStart := LOADABLE_START + |data|;
      && |source| == codeStart + 4 * |p|
      && source[LOADABLE_START..codeStart] == data && source[codeStart..] == EncodeProgram(p)
    ensures var d, c := DataHeader(data, p), CodeHeader(data, p);
      var list := if Kept(d) then [d] else [];
      && CopiesFit(list, |source|, |free|) && CopiesFit([c], |source|, 4 * |p|)
      && CopyAll(list, source, Zeroed(|data|, free)) == data + free[|data|..]
      && CopyAll([c], source, Zeros(4 * |p|)) == EncodeProgram(p)
  {
    hide EncodeProgram, WellFormed, CopiesFit;
    var d, c, bytes := DataHeader(data, p), CodeHeader(data, p), EncodeProgram(p);
    assert source[c.sourceStart..c.FileEnd()] == bytes;
    CopyOnlyOne(d, source, Zeroed(|data|, free), data);
    CopyOnlyOne(c, source, Zeros(|bytes|), bytes);
    if !Kept(d) {
      assert data == [];
      NoCopies(source, free);
    }
    assert bytes + Zeros(|bytes|)[|bytes|..] == bytes;
    assert Zeroed(|data|, free)[|data|..] == free[|data|..];
    hide CopyAll;
  }

  lemma NoCopies(source: seq<Byte>, free: seq<Byte>)
    ensures CopiesFit([], |source|, |free|) && CopyAll([], source, Zeroed(0, free)) == [] + free[0..]
  {
  }

  /** Copying one segment to address 0. */
  lemma CopyOnlyOne(h: SegmentHeader, source: seq<Byte>, memory: seq<Byte>, bytes: seq<Byte>)
    requires h.destinationStart == 0 && h.sourceSize == |bytes| <= |memory| && h.FileEnd() <= |source|
    requires source[h.sourceStart..h.FileEnd()] == bytes
    ensures CopiesFit([h], |source|, |memory|) && CopyAll([h], source, memory) == bytes + memory[|bytes|..]
  {
    assert [] + [h] == [h];
    CopyAllSnoc([], h, source, memory);
    assert CopyOne(h, source, memory) == bytes + memory[|bytes|..];
    hide CopyOne;
  }

  // ----- permuted tables -----

  /** Writing the program header table in another order makes a file that loads alike, as long as no segment takes its
      bytes from the headers and no sum wraps. */
  lemma PermutedFilesLoadAlike(table: Headers, permuted: Headers, rest: seq<Byte>, data: Headers, code: Headers,
                               data': Headers, code': Headers, free: Span)
    requires multiset(table) == multiset(permuted) && |table| < 0x1_0000 && RestOffset(table) + |rest| < OBJECT_LIMIT
    requires forall h :: h in table && Kept(h) ==> h.sourceStart >= RestOffset(table)
    requires NoSegmentWraps(table, RestOffset(table) + |rest|)
    ensures |FileWith(table, rest)| == |FileWith(permuted, rest)| < OBJECT_LIMIT
    ensures var source: File, other: File := FileWith(table, rest), FileWith(permuted, rest);
      ArrangedFrom(source, data, code) && ArrangedFrom(other, data', code') ==>
        CodedFilePlan(source, data, code, free) == CodedFilePlan(other, data', code', free)
  {
    hide HeaderVerdict, TableOf, TableInFile, TableWraps, FileWith, CodedFilePlan, ArrangedFrom, NoSegmentWraps, Kept;
    SameLength(table, permuted);
    TableRoundTrip(table, rest);
    TableRoundTrip(permuted, rest);
    var source: File, other: File := FileWith(table, rest), FileWith(permuted, rest);
    forall h | h in table && Kept(h) && h.FileEnd() <= |source|
      ensures source[h.sourceStart..h.FileEnd()] == other[h.sourceStart..h.FileEnd()]
    {
      SameBehind(source, other, RestOffset(table), h.sourceStart, h.FileEnd());
    }
    if ArrangedFrom(source, data, code) && ArrangedFrom(other, data', code') {
      FilesLoadAlike(source, other, data, code, data', code', free);
    }
  }

  lemma SameBehind(source: seq<Byte>, other: seq<Byte>, offset: nat, from: nat, to: nat)
    requires |source| == |other| && offset <= from <= to <= |source| && source[offset..] == other[offset..]
    ensures source[from..to] == other[from..to]
  {
    forall k | 0 <= k < to - from
      ensures source[from..to][k] == other[from..to][k]
    {
      var i := from - offset + k;
      assert source[offset..][i] == other[offset..][i];
    }
  }

  /** The round trip with the two program headers swapped. */
  lemma SwappedHeadersLoad(data: seq<Byte>, p: seq<Instruction>, free: Span, sorted: Headers, sortedCode: Headers)
    requires p != [] && AllWellFormed(p) && FitsAFile(data, p) && |data| <= |free|
    ensures |FileWith([CodeHeader(data, p), DataHeader(data, p)], data + EncodeProgram(p))| < OBJECT_LIMIT
    ensures var swapped: File := FileWith([CodeHeader(data, p), DataHeader(data, p)], data + EncodeProgram(p));
      ArrangedFrom(swapped, sorted, sortedCode) ==>
        CodedFilePlan(swapped, sorted, sortedCode, free) == Map(data + free[|data|..], Success(p))
  {
    hide HeaderVerdict, TableOf, TableInFile, TableWraps, FileWith, CodedFilePlan, ArrangedFrom, NoSegmentWraps,
      WellFormed, EncodeProgram, FilePlan, NothingWraps, Kept;
    var d, c, rest := DataHeader(data, p), CodeHeader(data, p), data + EncodeProgram(p);
    var list := if Kept(d) then [d] else [];
    TableRoundTrip([d, c], rest);
    LoadableWraps(data, p);
    FileRoundTrip(data, p, free, list, [c]);
    LoadableArranged(LoadableFile(data, p), data, p);
    assert multiset([d, c]) == multiset([c, d]);
    PermutedFilesLoadAlike([d, c], [c, d], rest, list, [c], sorted, sortedCode, free);
  }

  // ----- files that mislead the loader -----

  /** A file of a header only. Its table starts 56 bytes before the end of the address space, so that the bound of its
      one entry wraps to 0 and passes. */
  function WrappedTableFile(): (source: File) {
    HeaderBytes(TWO_64 - ENTRY_SIZE, 1)
  }

  /** Its header is accepted, and then the loader reads outside the file. */
  lemma WrappedTableEscapes(data: Headers, code: Headers, free: Span)
    ensures var source := WrappedTableFile();
      && HeaderVerdict(source) == None && TableWraps(source) && TableOffset(source) + 48 > |source|
      && Escapes(source, data, code, free) && CodedFilePlan(source, data, code, free).Undefined?
  {
    hide HeaderBytes, HeaderVerdict, TableOffset, TableCount;
    var source := WrappedTableFile();
    assert source[..ELF_HEADER_SIZE] == source;
    HeaderIsRead(source, TWO_64 - ENTRY_SIZE, 1);
    DivModUnique(TWO_64, TWO_64, 1, 0);
    TableBoundExactly(source);
  }

  /** A code segment of one instruction, the first four bytes of the file. */
  const SMALL_CODE := SegmentHeader(1, 5, 0, 0, 4, 4)

  /** A file with one data segment beside the small code segment, and no bytes behind its table. */
  function SampleFile(h: SegmentHeader): (source: File) {
    FileWith([h, SMALL_CODE], [])
  }

  lemma SampleIsRead(h: SegmentHeader)
    ensures var source := SampleFile(h);
      && |source| == LOADABLE_START && HeaderVerdict(source) == None && TableInFile(source)
      && TableOf(source) == [h, SMALL_CODE]
      && (Kept(h) && h.flags % 2 == 0 ==> ArrangedFrom(source, [h], [SMALL_CODE]))
  {
    hide HeaderVerdict, TableOf, TableInFile, TableWraps, FileWith, Arranged;
    TableRoundTrip([h, SMALL_CODE], []);
    if Kept(h) && h.flags % 2 == 0 {
      DataAndCodeArranged(h, SMALL_CODE);
    }
  }

  /** If the segment passes the checks of its own ends, the sample file passes every check; and then it escapes exactly
      when the segment does not stay inside, whatever lists sorting leaves. */
  lemma SampleEscapes(h: SegmentHeader, data: Headers, code: Headers, free: Span)
    requires Kept(h) && h.flags % 2 == 0 && Untruncated(h)
    requires h.SourceEnd() <= LOADABLE_START && h.DestinationEnd() <= |free|
    requires ArrangedFrom(SampleFile(h), data, code)
    ensures data == [h] && code == [SMALL_CODE]
    ensures Passes([h, SMALL_CODE], data, code, LOADABLE_START, |free|)
    ensures Escapes(SampleFile(h), data, code, free) <==> !StaysInside([h], |free|)
    ensures CodedFilePlan(SampleFile(h), data, code, free).Undefined? <==> !StaysInside([h], |free|)
  {
    hide HeaderVerdict, TableOf, TableInFile, TableWraps, SampleFile, Executable, CodedFilePlan, Arranged;
    EndIsExact(SMALL_CODE);
    SampleIsRead(h);
    TableBoundExactly(SampleFile(h));
    DataAndCodeArranged(h, SMALL_CODE);
    OnlyArrangement([h, SMALL_CODE], [h], [SMALL_CODE], data, code);
    EscapesExactly(SampleFile(h), data, code, free);
  }

  /** A file whose data segment ends past the address space, at 8 by the wrapped sum: it passes every check, is given a
      block of 8 bytes, and is copied outside memory. */
  lemma WrappedEndEscapes(data: Headers, code: Headers, free: Span)
    requires |free| >= 8
    requires ArrangedFrom(SampleFile(SegmentHeader(1, 0, 0, 0xffff_ffff_ffff_fff8, 16, 16)), data, code)
    ensures LastEnd(data) == 8
    ensures var source := SampleFile(SegmentHeader(1, 0, 0, 0xffff_ffff_ffff_fff8, 16, 16));
      Escapes(source, data, code, free) && CodedFilePlan(source, data, code, free).Undefined?
  {
    hide Escapes, CodedFilePlan, ArrangedFrom, SampleFile, StaysInside;
    var h := SegmentHeader(1, 0, 0, 0xffff_ffff_ffff_fff8, 16, 16);
    EndIsExact(h);
    SampleEscapes(h, data, code, free);
    OneStaysInside(h, |free|);
  }

  /** A file whose data segment's source end wraps around to 8: it passes every check, and is copied from outside the
      file. */
  lemma WrappedSourceEscapes(data: Headers, code: Headers, free: Span)
    requires |free| >= 16
    requires ArrangedFrom(SampleFile(SegmentHeader(1, 0, 0xffff_ffff_ffff_fff8, 0, 16, 16)), data, code)
    ensures var source := SampleFile(SegmentHeader(1, 0, 0xffff_ffff_ffff_fff8, 0, 16, 16));
      Escapes(source, data, code, free) && CodedFilePlan(source, data, code, free).Undefined?
  {
    hide Escapes, CodedFilePlan, ArrangedFrom, SampleFile, StaysInside;
    var h := SegmentHeader(1, 0, 0xffff_ffff_ffff_fff8, 0, 16, 16);
    EndIsExact(h);
    DivModUnique(h.FileEnd(), TWO_64, 1, 8);
    SampleEscapes(h, data, code, free);
    OneStaysInside(h, |free|);
  }

  lemma OneStaysInside(h: SegmentHeader, length: nat)
    ensures StaysInside([h], length) <==>
      !h.SourceWraps() && (h.Wraps() ==> h.destinationStart + h.sourceSize <= length)
  {
    assert h in [h];
  }

  const OVERRUNNING := SegmentHeader(1, 6, 0, 16, 100, 0xffff_ffff_ffff_fff8)
  const COVERING := SegmentHeader(1, 6, 0, 32, 0, 8)

  function OverrunningFile(): (source: File)
    ensures |source| >= 100
  {
    FileWith([OVERRUNNING, COVERING, SMALL_CODE], [])
  }

  /** A file whose two data segments end at 40 by the wrapped sums: the first one's 100 bytes are copied past the 40
      that are allocated. As long as the arena's storage goes on far enough, that is defined, and loading goes on;
      otherwise they leave the storage. */
  lemma WrappedEndOverruns(free: Span)
    requires |free| >= 40
    ensures var source, data, code := OverrunningFile(), [OVERRUNNING, COVERING], [SMALL_CODE];
      && ArrangedFrom(source, data, code) && LastEnd(data) == 40 && !CopiesFit(data, |source|, 40)
      && var plan := CodedFilePlan(source, data, code, free);
         if |free| < 116 then plan.Undefined?
         else plan.Map? && |plan.memory| == |free| && plan.memory[40..116] == source[24..100]
  {
    hide HeaderVerdict, TableOf, TableInFile, TableWraps, FileWith, CopyAll, Kept, CodedProgram, Arranged, CopiesFit,
      ListDataVerdict, ListCodeVerdict, LastEnd, OverrunningFile, Zeroed, CodeEscapes;
    var source, data, code := OverrunningFile(), [OVERRUNNING, COVERING], [SMALL_CODE];
    OverrunningIsRead();
    OverrunningPasses(|source|);
    OverrunningFits(|source|, 40);
    OverrunningFits(|source|, |free|);
    if |free| >= 116 {
      forall k | 40 <= k < 116
        ensures CopyAll(data, source, Zeroed(40, free))[k] == source[k - 16]
      {
        OverrunBytes(OVERRUNNING, COVERING, source, Zeroed(40, free), k);
      }
    }
  }

  lemma OverrunningIsRead()
    ensures var source, table := OverrunningFile(), [OVERRUNNING, COVERING, SMALL_CODE];
      && HeaderVerdict(source) == None && TableInFile(source) && TableOf(source) == table
      && Arranged(table, [OVERRUNNING, COVERING], [SMALL_CODE])
  {
    hide HeaderVerdict, TableOf, TableInFile, TableWraps, FileWith, Arranged;
    TableRoundTrip([OVERRUNNING, COVERING, SMALL_CODE], []);
    TwoDataArranged(OVERRUNNING, COVERING, SMALL_CODE);
  }

  lemma OverrunningPasses(fileSize: nat)
    requires fileSize >= 100
    ensures EndsInFile([OVERRUNNING, COVERING, SMALL_CODE], fileSize)
    ensures ListDataVerdict([OVERRUNNING, COVERING]) == None && LastEnd([OVERRUNNING, COVERING]) == 40
    ensures ListCodeVerdict([SMALL_CODE]) == None && !CodeEscapes([SMALL_CODE], fileSize)
  {
    EndIsExact(OVERRUNNING);
    EndIsExact(COVERING);
    EndIsExact(SMALL_CODE);
    CoveredPasses(OVERRUNNING, COVERING);
    SmallCodePasses(SMALL_CODE, fileSize);
    hide ListDataVerdict, ListCodeVerdict, CodeEscapes, Kept, Wrap64;
  }

  lemma CoveredPasses(a: SegmentHeader, b: SegmentHeader)
    requires Untruncated(a) && Untruncated(b) && a.DestinationEnd() <= b.destinationStart
    ensures ListDataVerdict([a, b]) == None
  {
    hide Wrap64;
  }

  lemma SmallCodePasses(c: SegmentHeader, fileSize: nat)
    requires c.destinationSize == c.sourceSize && c.destinationStart == 0 && !c.Wraps() && c.FileEnd() <= fileSize
    ensures ListCodeVerdict([c]) == None && !CodeEscapes([c], fileSize)
  {
    EndIsExact(c);
    hide Wrap64;
  }

  lemma OverrunningFits(fileSize: nat, length: nat)
    requires fileSize >= 100 && length >= 40
    ensures CopiesFit([OVERRUNNING, COVERING], fileSize, length) <==> length >= 116
  {
    assert OVERRUNNING in [OVERRUNNING, COVERING];
  }

  lemma TwoDataArranged(a: SegmentHeader, b: SegmentHeader, c: SegmentHeader)
    requires Kept(a) && Kept(b) && Kept(c) && a.flags % 2 == b.flags % 2 == 0 && c.flags % 2 == 1
    requires a.destinationStart <= b.destinationStart
    ensures Arranged([a, b, c], [a, b], [c])
  {
    hide Kept, Executable, Select;
    ExecutableIsLowBit(a);
    ExecutableIsLowBit(b);
    ExecutableIsLowBit(c);
    SelectThree(a, b, c, false);
    SelectThree(a, b, c, true);
  }

  lemma SelectThree(a: SegmentHeader, b: SegmentHeader, c: SegmentHeader, executable: bool)
    requires Kept(a) && Kept(b) && Kept(c) && !Executable(a) && !Executable(b) && Executable(c)
    ensures Select([a, b, c], executable) == if executable then [c] else [a, b]
  {
    hide Kept, Executable;
    assert [] + [a] == [a] && [a] + [b] == [a, b] && [a, b] + [c] == [a, b, c];
    SelectSnoc([], a, executable);
    SelectSnoc([a], b, executable);
    SelectSnoc([a, b], c, executable);
  }

  lemma OverrunBytes(a: SegmentHeader, b: SegmentHeader, source: seq<Byte>, memory: seq<Byte>, k: nat)
    requires CopyFits(a, |source|, |memory|) && CopyFits(b, |source|, |memory|) && b.sourceSize == 0 && a.Fills(k)
    ensures CopiesFit([a, b], |source|, |memory|)
    ensures CopyAll([a, b], source, memory)[k] == FileByte(a, source, k)
  {
    hide CopyAll, CopyOne, CopiesFit;
    CopyTwo(a, b, source, memory);
    CopyOneByte(a, source, memory, k);
    CopyOneByte(b, source, CopyOne(a, source, memory), k);
  }

  lemma CopyTwo(a: SegmentHeader, b: SegmentHeader, source: seq<Byte>, memory: seq<Byte>)
    requires CopyFits(a, |source|, |memory|) && CopyFits(b, |source|, |memory|)
    ensures CopiesFit([a, b], |source|, |memory|)
    ensures CopyAll([a, b], source, memory) == CopyOne(b, source, CopyOne(a, source, memory))
  {
    hide CopyOne, CopyFits;
    assert [] + [a] == [a] && [a] + [b] == [a, b];
    CopyAllSnoc([], a, source, memory);
    CopyAllSnoc([a], b, source, memory);
  }

  lemma CopyAllSnoc(xs: Headers, h: SegmentHeader, source: seq<Byte>, memory: seq<Byte>)
    requires CopiesFit(xs, |source|, |memory|) && CopyFits(h, |source|, |memory|)
    ensures CopiesFit(xs + [h], |source|, |memory|)
    ensures CopyAll(xs + [h], source, memory) == CopyOne(h, source, CopyAll(xs, source, memory))
  {
    hide CopyOne, CopyFits;
    assert (xs + [h])[..|xs|] == xs;
  }

  /** A file whose code segment's ends wrap so that every check passes with 2^64 - 16 bytes of code: no vector holds
      them, so it throws before anything is read outside. The plan rejects the file. */
  lemma WrappedCodeIsTooLarge(free: Span)
    ensures var c := SegmentHeader(1, 5, 24, 0, 0xffff_ffff_ffff_fff0, 0xffff_ffff_ffff_fff0);
      var source: File := FileWith([c], []);
      && ArrangedFrom(source, [], [c]) && FilePlan(source, free) == Reject(SegmentOutOfBounds)
      && !Escapes(source, [], [c], free)
      && CodedFilePlan(source, [], [c], free) == Map(free, Failure(CodeTooLarge))
  {
    hide HeaderVerdict, TableOf, TableInFile, TableWraps, FileWith, CopyAll, Executable;
    var c := SegmentHeader(1, 5, 24, 0, 0xffff_ffff_ffff_fff0, 0xffff_ffff_ffff_fff0);
    TableRoundTrip([c], []);
    var source: File := FileWith([c], []);
    EndIsExact(c);
    DivModUnique(c.FileEnd(), TWO_64, 1, 8);
    ExecutableIsLowBit(c);
    SelectSnoc([], c, false);
    SelectSnoc([], c, true);
    assert [] + [c] == [c];
    NoCopies(source, free);
    assert [] + free[0..] == free;
    assert c in [c];
  }
}
