/** The ELF loader as coded (src/riscv/elf.cpp), proved against the file's coded plan. */
module Loader {
  import opened Bits
  import opened Memory
  import opened Segments
  import opened Images
  import opened Layout
  import opened CodedPlans
  import opened ElfFiles
  import opened FilePlans
  import opened Program
  import opened Emulators
  import opened Results

  // ----- the file header -----

  class ElfHeader {
    var magic: nat
    var elfClass: nat
    var data: nat
    var version: nat
    var osABI: nat
    var fileType: nat
    var machine: nat
    var entry: nat
    var programHeaderOffset: nat
    var programHeaderEntrySize: nat
    var programHeaderEntryCount: nat

    /** The members hold what the file's header says. */
    ghost predicate Holds(source: seq<Byte>)
      reads this
    {
      && |source| >= ELF_HEADER_SIZE
      && magic == LittleEndian(source[0..4]) && elfClass == source[4] && data == source[5] && version == source[6]
      && osABI == source[7] && fileType == LittleEndian(source[16..18]) && machine == LittleEndian(source[18..20])
      && entry == LittleEndian(source[24..32]) && programHeaderOffset == TableOffset(source)
      && programHeaderEntrySize == LittleEndian(source[54..56]) && programHeaderEntryCount == TableCount(source)
    }

    constructor ()
    {
      magic, elfClass, data, version, osABI, fileType, machine, entry := 0, 0, 0, 0, 0, 0, 0, 0;
      programHeaderOffset, programHeaderEntrySize, programHeaderEntryCount := 0, 0, 0;
    }

    /** Reads and validates; the error, if any. */
    method Read(source: Span) returns (r: Option<LoadError>)
      modifies this
      ensures r == HeaderVerdict(source)
      ensures r.None? ==> Holds(source) && programHeaderEntrySize == ENTRY_SIZE
    {
      hide LoadU16, LoadU32, LoadU64, LittleEndian;
      if |source| < ELF_HEADER_SIZE {
        return Some(FileTooSmall);
      }
      magic := LoadU32(source, 0);
      elfClass := source[4];
      data := source[5];
      version := source[6];
      osABI := source[7];
      fileType := LoadU16(source, 16);
      machine := LoadU16(source, 18);
      entry := LoadU64(source, 24);
      programHeaderOffset := LoadU64(source, 32);
      programHeaderEntrySize := LoadU16(source, 54);
      programHeaderEntryCount := LoadU16(source, 56);
      r := Validate(source);
      MeansBytes(source);
    }

    method Validate(source: Span) returns (r: Option<LoadError>)
      requires Holds(source)
      ensures r == HeaderVerdict(source)
    {
      hide LittleEndian;
      MeansBytes(source);
      if !(magic == 0x464c457f && elfClass == 2 && data == 1 && version == 1 && osABI == 0 && fileType == 2
           && machine == 243 && programHeaderEntrySize == ENTRY_SIZE) {
        return Some(InvalidHeader);
      }
      if entry != 0 {
        return Some(EntryNotZero);
      }
      if Wrap64(programHeaderOffset + programHeaderEntryCount * programHeaderEntrySize) > |source| {
        return Some(ProgramHeadersOutOfBounds);
      }
      r := None;
    }
  }

  /** A `std::vector<SegmentHeader>&`. */
  class HeaderVector {
    var headers: Headers

    constructor ()
      ensures headers == []
    {
      headers := [];
    }

    method PushBack(header: SegmentHeader)
      modifies this
      ensures headers == old(headers) + [header]
    {
      headers := headers + [header];
    }
  }

  method ReadSegmentHeaders(elfHeader: ElfHeader, source: File, dataHeaders: HeaderVector, codeHeaders: HeaderVector)
    returns (r: Option<LoadError>)
    requires dataHeaders != codeHeaders && dataHeaders.headers == [] && codeHeaders.headers == []
    requires HeaderVerdict(source).None? && elfHeader.Holds(source) && elfHeader.programHeaderEntrySize == ENTRY_SIZE
    modifies dataHeaders, codeHeaders
    ensures if !TableInFile(source) then r == Some(OutOfBoundsAccess)
      else if !EndsInFile(TableOf(source), |source|) then r == Some(SegmentOutOfBounds)
      else
        && r == None && dataHeaders.headers == Select(TableOf(source), false)
        && codeHeaders.headers == Select(TableOf(source), true)
  {
    hide SegmentAt, Kept, Executable, LittleEndian, HeaderVerdict, TableOffset, TableCount;
    TableBoundExactly(source);
    TableOffsetBound(source);
    var i := 0;
    ghost var inFile := TableInFile(source);
    while i < elfHeader.programHeaderEntryCount
      invariant 0 <= i <= elfHeader.programHeaderEntryCount
      invariant elfHeader.Holds(source) && elfHeader.programHeaderEntrySize == ENTRY_SIZE
      invariant if inFile then ReadSoFar(source, i, dataHeaders.headers, codeHeaders.headers) else i == 0
    {
      var offset := Wrap64(elfHeader.programHeaderOffset + i * elfHeader.programHeaderEntrySize);
      if inFile {
        EntryInFile(source, i);
      } else {
        DivModUnique(TableOffset(source), TWO_64, 0, TableOffset(source));
      }
      if offset + 48 > |source| {
        return Some(OutOfBoundsAccess);
      }
      var header := SegmentAt(source, offset);
      ReadOneMore(source, i, dataHeaders.headers, codeHeaders.headers);
      i := i + 1;
      if !Kept(header) {
        continue;
      }
      if header.SourceEnd() > |source| {
        assert header in TableOf(source);
        return Some(SegmentOutOfBounds);
      }
      if Executable(header) {
        codeHeaders.PushBack(header);
      } else {
        dataHeaders.PushBack(header);
      }
    }
    r := None;
  }

  /** After the first `i` entries were read without error. */
  ghost predicate ReadSoFar(source: seq<Byte>, i: nat, data: Headers, code: Headers)
    requires TableInFile(source) && i <= TableCount(source)
  {
    var table := TableUpTo(source, i);
    EndsInFile(table, |source|) && data == Select(table, false) && code == Select(table, true)
  }

  /** One more entry: it goes to the end of the list it belongs to, if any. */
  lemma ReadOneMore(source: seq<Byte>, i: nat, data: Headers, code: Headers)
    requires TableInFile(source) && i < TableCount(source) && ReadSoFar(source, i, data, code)
    ensures var h := SegmentAt(source, TableOffset(source) + ENTRY_SIZE * i);
      && (!Kept(h) ==> ReadSoFar(source, i + 1, data, code))
      && (Kept(h) && h.SourceEnd() <= |source| && Executable(h) ==> ReadSoFar(source, i + 1, data, code + [h]))
      && (Kept(h) && h.SourceEnd() <= |source| && !Executable(h) ==> ReadSoFar(source, i + 1, data + [h], code))
  {
    hide SegmentAt, TableOffset, TableCount, Kept, Executable;
    var table, h := TableUpTo(source, i), SegmentAt(source, TableOffset(source) + ENTRY_SIZE * i);
    assert TableUpTo(source, i + 1) == table + [h];
    assert (table + [h])[..|table|] == table;
  }

  // ----- sorting and validation -----

  /** A sorted arrangement; which one, among ties, is not promised (`std::sort` is not stable). */
  method SortHeadersBySegmentAddresses(vector: HeaderVector)
    modifies vector
    ensures Sorted(vector.headers) && multiset(vector.headers) == multiset(old(vector.headers))
  {
    var headers, sorted: Headers := vector.headers, [];
    var i := 0;
    while i < |headers|
      invariant 0 <= i <= |headers|
      invariant Sorted(sorted) && multiset(sorted) == multiset(headers[..i])
    {
      sorted := Insert(sorted, headers[i]);
      assert headers[..i + 1] == headers[..i] + [headers[i]];
      i := i + 1;
    }
    assert headers[..i] == headers;
    vector.headers := sorted;
  }

  method Insert(sorted: Headers, h: SegmentHeader) returns (r: Headers)
    requires Sorted(sorted)
    ensures Sorted(r) && multiset(r) == multiset(sorted) + multiset{h}
  {
    hide Sorted;
    var k := |sorted|;
    while k > 0 && h.destinationStart < sorted[k - 1].destinationStart
      invariant 0 <= k <= |sorted|
      invariant forall j :: k <= j < |sorted| ==> h.destinationStart < sorted[j].destinationStart
    {
      k := k - 1;
    }
    r := sorted[..k] + ([h] + sorted[k..]);
    InsertedIsSorted(sorted, k, h);
    InsertedOccurrences(sorted, k, h);
  }

  lemma InsertedOccurrences(sorted: Headers, k: nat, h: SegmentHeader)
    requires k <= |sorted|
    ensures multiset(sorted[..k] + ([h] + sorted[k..])) == multiset(sorted) + multiset{h}
  {
    assert sorted == sorted[..k] + sorted[k..];
  }

  lemma InsertedIsSorted(sorted: Headers, k: nat, h: SegmentHeader)
    requires Sorted(sorted) && k <= |sorted|
    requires k > 0 ==> sorted[k - 1].destinationStart <= h.destinationStart
    requires forall j :: k <= j < |sorted| ==> h.destinationStart < sorted[j].destinationStart
    ensures Sorted(sorted[..k] + ([h] + sorted[k..]))
  {
    SortedConcat([h], sorted[k..]);
    forall i | 0 <= i < k
      ensures sorted[i].destinationStart <= h.destinationStart
    {
      assert i < k - 1 ==> sorted[i].destinationStart <= sorted[k - 1].destinationStart;
    }
    SortedConcat(sorted[..k], [h] + sorted[k..]);
  }

  lemma SortedConcat(a: Headers, b: Headers)
    requires Sorted(a) && Sorted(b)
    requires forall i, j :: 0 <= i < |a| && 0 <= j < |b| ==> a[i].destinationStart <= b[j].destinationStart
    ensures Sorted(a + b)
  {
  }

  method ValidateDataHeaders(headers: Headers) returns (r: Option<LoadError>)
    ensures r == ListDataVerdict(headers)
  {
    var n := 0;
    while n < |headers|
      invariant 0 <= n <= |headers| && forall h :: h in headers[..n] ==> Untruncated(h)
    {
      if headers[n].sourceSize > headers[n].destinationSize {
        assert headers[n] in headers && !Untruncated(headers[n]);
        return Some(DataTruncated);
      }
      assert headers[..n + 1] == headers[..n] + [headers[n]];
      n := n + 1;
    }
    assert headers[..n] == headers;
    var i, next := 0, 1;
    while next < |headers|
      invariant 0 <= i == next - 1 && (headers == [] || next <= |headers|)
      invariant forall k :: 0 <= k < i && k < |headers| - 1 ==>
        headers[k].DestinationEnd() <= headers[k + 1].destinationStart
    {
      if headers[i].DestinationEnd() > headers[next].destinationStart {
        assert headers[i + 1] == headers[next];
        return Some(DataOverlap);
      }
      i, next := i + 1, next + 1;
    }
    r := None;
  }

  method ValidateCodeHeaders(headers: Headers) returns (r: Option<LoadError>)
    ensures r == ListCodeVerdict(headers)
  {
    if headers == [] {
      return Some(NoCode);
    }
    var n := 0;
    while n < |headers|
      invariant 0 <= n <= |headers| && forall h :: h in headers[..n] ==> h.destinationSize == h.sourceSize
    {
      if headers[n].destinationSize != headers[n].sourceSize {
        assert headers[n] in headers;
        return Some(CodeResized);
      }
      assert headers[..n + 1] == headers[..n] + [headers[n]];
      n := n + 1;
    }
    assert headers[..n] == headers;
    if headers[0].destinationStart != 0 {
      return Some(CodeNotAtZero);
    }
    var i, next := 0, 1;
    while next < |headers|
      invariant 0 <= i == next - 1 && next <= |headers|
      invariant forall k :: 0 <= k < i && k < |headers| - 1 ==>
        headers[k].DestinationEnd() == headers[k + 1].destinationStart
    {
      if headers[i].DestinationEnd() != headers[next].destinationStart {
        assert headers[i + 1] == headers[next];
        return Some(CodeNotContiguous);
      }
      i, next := i + 1, next + 1;
    }
    r := None;
  }

  // ----- mapping -----

  method MapDataSegments(headers: Headers, source: Span, emulator: Emulator) returns (r: Option<LoadError>)
    requires emulator.memory.Valid()
    modifies emulator.memory`freeSpace, emulator.memory.storage
    ensures emulator.memory.Valid() && emulator.memory.State() == old(emulator.memory.State())
    ensures var storage, offset := old(emulator.memory.storage[..]), emulator.memory.GetFreeOffset();
      var total := LastEnd(headers);
      if total > emulator.memory.freeSpace then r == Some(OutOfMemory) && emulator.memory.storage[..] == storage
      else if !CopiesFit(headers, |source|, |storage[offset..]|) then r == Some(OutOfBoundsAccess)
      else
        && r == None
        && emulator.memory.storage[..] == storage[..offset] + CopyAll(headers, source, Zeroed(total, storage[offset..]))
  {
    hide CopyAll, CopiesFit, Copied, Paste, Zeros, Zeroed;
    ghost var storage, offset := emulator.memory.storage[..], emulator.memory.GetFreeOffset();
    if headers == [] {
      CopiesNothing(source, storage, offset);
      return None;
    }
    var arena, totalDataSize := emulator.memory, headers[|headers| - 1].DestinationEnd();
    var block := arena.AllocateBytes(totalDataSize);
    if block.None? {
      return Some(OutOfMemory);
    }
    var ok := CopySegments(headers, source, arena.storage, block.value, arena.storage.Length - block.value);
    if ok {
      CopiedIntoZeroed(headers, source, storage, offset, totalDataSize);
    }
    r := if ok then None else Some(OutOfBoundsAccess);
  }

  lemma CopiesNothing(source: seq<Byte>, memory: seq<Byte>, base: nat)
    requires base <= |memory|
    ensures CopiesFit([], |source|, |memory[base..]|)
    ensures memory[..base] + CopyAll([], source, Zeroed(0, memory[base..])) == memory
  {
    assert Zeros(0) + memory[base..] == memory[base..];
  }

  method MapCodeSegments(headers: Headers, source: Span, emulator: Emulator) returns (r: Option<LoadError>)
    requires headers != []
    modifies emulator`instructions
    ensures if CodeEscapes(headers, |source|)
      then r == Some(OutOfBoundsAccess) && emulator.instructions == old(emulator.instructions)
      else
        match CodedProgram(headers, source)
        case Success(program) => r == None && emulator.instructions == program
        case Failure(e) => r == Some(e) && emulator.instructions == old(emulator.instructions)
  {
    hide CopyAll, CopiesFit, Copied, DecodeProgram, Paste;
    var totalCodeSize := headers[|headers| - 1].DestinationEnd();
    if totalCodeSize >= OBJECT_LIMIT {
      return Some(CodeTooLarge);
    }
    var codeMemory := new Byte[totalCodeSize](_ => 0);
    ghost var zeros := Zeros(totalCodeSize);
    assert codeMemory[..] == zeros;
    var ok := CopySegments(headers, source, codeMemory, 0, totalCodeSize);
    if !ok {
      return Some(OutOfBoundsAccess);
    }
    CopiedWhole(headers, source, zeros);
    var decoded := DecodeInstructions(codeMemory[..]);
    match decoded
    case Success(instructions) =>
      emulator.SetInstructions(instructions);
      r := None;
    case Failure(e) =>
      r := Some(BadProgram(e));
  }

  lemma CopiedWhole(headers: Headers, source: seq<Byte>, memory: seq<Byte>)
    requires CopiesFit(headers, |source|, |memory|)
    ensures Copied(headers, source, memory, 0, |memory|) == CopyAll(headers, source, memory)
  {
    hide CopyAll, CopiesFit;
    assert memory[0..|memory|] == memory;
  }

  // ----- the loader -----

  /** `loadElf`. The ghost results are the sorted lists it comes to; which arrangement sorting leaves is open. */
  method LoadElf(source: File, emulator: Emulator)
    returns (r: Option<LoadError>, ghost data: Headers, ghost code: Headers)
    requires emulator.memory.Valid()
    modifies emulator`instructions, emulator.memory`freeSpace, emulator.memory.storage
    ensures emulator.memory.Valid() && emulator.memory.State() == old(emulator.memory.State())
    ensures ArrangedFrom(source, data, code)
    ensures match CodedFilePlan(source, data, code, old(emulator.memory.Free()))
      case Reject(e) =>
        && r == Some(e) && emulator.instructions == old(emulator.instructions)
        && emulator.memory.storage[..] == old(emulator.memory.storage[..])
      case Map(memory, program) =>
        && emulator.memory.storage[..] == old(emulator.memory.storage[..])[..emulator.memory.GetFreeOffset()] + memory
        && (match program
            case Success(instructions) => r == None && emulator.instructions == instructions
            case Failure(e) => r == Some(e) && emulator.instructions == old(emulator.instructions))
      case Undefined => r == Some(OutOfBoundsAccess)
    ensures r == Some(OutOfBoundsAccess) <==> Escapes(source, data, code, old(emulator.memory.Free()))
    ensures NothingWraps(source) ==>
      CodedFilePlan(source, data, code, old(emulator.memory.Free())) == FilePlan(source, old(emulator.memory.Free()))
  {
    hide HeaderVerdict, NothingWraps, TableOf, TableInFile, TableOffset, TableCount, Select, ListDataVerdict,
      ListCodeVerdict, CodedProgram, CodeEscapes, CopyAll, CopiesFit, EndsInFile, Escapes, FilePlan, Sorted,
      LittleEndian, LastEnd;
    PlansAreExact(source, emulator.memory.Free());
    data, code := [], [];
    var elfHeader := new ElfHeader();
    r := elfHeader.Read(source);
    if r.Some? {
      return;
    }
    var dataHeaders := new HeaderVector();
    var codeHeaders := new HeaderVector();
    r := ReadSegmentHeaders(elfHeader, source, dataHeaders, codeHeaders);
    if r.Some? {
      return;
    }
    SortHeadersBySegmentAddresses(dataHeaders);
    SortHeadersBySegmentAddresses(codeHeaders);
    data, code := dataHeaders.headers, codeHeaders.headers;
    r := ValidateDataHeaders(dataHeaders.headers);
    if r.Some? {
      return;
    }
    r := ValidateCodeHeaders(codeHeaders.headers);
    if r.Some? {
      return;
    }
    AcceptedCodeIsApart(codeHeaders.headers);
    r := MapDataSegments(dataHeaders.headers, source, emulator);
    if r.Some? {
      return;
    }
    r := MapCodeSegments(codeHeaders.headers, source, emulator);
  }

  /** The exact conditions of `FilePlans`, for whatever lists sorting leaves. */
  lemma PlansAreExact(source: File, free: Span)
    ensures forall data, code :: ArrangedFrom(source, data, code) ==>
      var coded := CodedFilePlan(source, data, code, free);
      && coded != Reject(OutOfBoundsAccess) && (coded.Map? ==> coded.program != Failure(OutOfBoundsAccess))
      && (coded.Undefined? <==> Escapes(source, data, code, free))
      && (NothingWraps(source) ==> coded == FilePlan(source, free))
  {
    hide ArrangedFrom, CodedFilePlan, Escapes, FilePlan, NothingWraps;
    forall data, code | ArrangedFrom(source, data, code)
      ensures var coded := CodedFilePlan(source, data, code, free);
        && coded != Reject(OutOfBoundsAccess) && (coded.Map? ==> coded.program != Failure(OutOfBoundsAccess))
        && (coded.Undefined? <==> Escapes(source, data, code, free))
        && (NothingWraps(source) ==> coded == FilePlan(source, free))
    {
      EscapesExactly(source, data, code, free);
      ErrorsAreOthers(source, data, code, free);
      if NothingWraps(source) {
        UnwrappedFollowsPlan(source, data, code, free);
      }
    }
  }

  /** No check and no failure to decode reports an access out of bounds. */
  lemma ErrorsAreOthers(source: File, data: Headers, code: Headers, free: Span)
    ensures var coded := CodedFilePlan(source, data, code, free);
      coded != Reject(OutOfBoundsAccess) && (coded.Map? ==> coded.program != Failure(OutOfBoundsAccess))
  {
    hide ListDataVerdict, ListCodeVerdict, CopiesFit, CopyAll, DecodeProgram, EndsInFile, TableOf;
    DataErrors(data, multiset{});
    CodeErrors(code, multiset{});
  }
}
