/** Which entries of a program header table are loaded, and why a file is rejected, said of the entries of the table
    themselves and in numbers: nothing here is defined by the loader's own tests. PT_LOAD is 1 and PF_X is bit 0
    (chapter 5 of the System V gABI). */
module Rejections {
  import opened Bits
  import opened Memory
  import opened Segments
  import opened Images
  import opened Program
  import opened Layout
  import opened CodedPlans
  import opened ElfFiles
  import opened FilePlans
  import opened Results

  /** The entry describes bytes to load. */
  predicate Loadable(h: SegmentHeader) {
    h.kind == 1 && (h.sourceSize > 0 || h.destinationSize > 0)
  }

  predicate LoadableData(h: SegmentHeader) {
    Loadable(h) && h.flags % 2 == 0
  }

  predicate LoadableCode(h: SegmentHeader) {
    Loadable(h) && h.flags % 2 == 1
  }

  predicate IsPart(h: SegmentHeader, executable: bool) {
    if executable then LoadableCode(h) else LoadableData(h)
  }

  lemma KeptExactly(h: SegmentHeader, executable: bool)
    ensures Kept(h) <==> Loadable(h)
    ensures Kept(h) && Executable(h) == executable <==> IsPart(h, executable)
  {
    ExecutableIsLowBit(h);
    hide Executable;
  }

  // ----- what is loaded -----

  /** Whatever sorting leaves, the lists hold exactly the loadable entries, each as often as the table does. */
  lemma LoadedExactly(table: Headers, data: Headers, code: Headers, h: SegmentHeader)
    requires Arranged(table, data, code)
    ensures multiset(data)[h] == if LoadableData(h) then multiset(table)[h] else 0
    ensures multiset(code)[h] == if LoadableCode(h) then multiset(table)[h] else 0
    ensures h in data <==> h in table && LoadableData(h)
    ensures h in code <==> h in table && LoadableCode(h)
  {
    hide Kept, Executable, Select, Sorted;
    SelectCounts(table, false, h);
    SelectCounts(table, true, h);
    KeptExactly(h, false);
    KeptExactly(h, true);
    assert h in data <==> h in multiset(data);
    assert h in code <==> h in multiset(code);
  }

  lemma {:induction false} SelectConcat(a: Headers, b: Headers, executable: bool)
    ensures Select(a + b, executable) == Select(a, executable) + Select(b, executable)
    decreases |b|
  {
    hide Kept, Executable;
    if b == [] {
      assert a + b == a;
    } else {
      var front, last := b[..|b| - 1], b[|b| - 1];
      SelectConcat(a, front, executable);
      assert (a + b)[..|a + b| - 1] == a + front;
    }
  }

  lemma SkipsOne(front: Headers, h: SegmentHeader, back: Headers, executable: bool)
    requires h.kind != 1
    ensures Select(front + [h] + back, executable) == Select(front + back, executable)
  {
    KeptExactly(h, executable);
    hide Kept, Executable;
    SelectConcat(front + [h], back, executable);
    SelectConcat(front, [h], executable);
    SelectConcat(front, back, executable);
    assert [h][..0] == [];
  }

  /** An entry of any other type, wherever it stands, changes neither the plan nor what is coded. */
  lemma OtherEntriesAreSkipped(source: seq<Byte>, front: Headers, h: SegmentHeader, back: Headers, data: Headers,
                               code: Headers, free: seq<Byte>)
    requires h.kind != 1
    ensures PlanFor(source, front + [h] + back, free) == PlanFor(source, front + back, free)
    ensures Arranged(front + [h] + back, data, code) <==> Arranged(front + back, data, code)
    ensures CodedPlan(source, front + [h] + back, data, code, free) == CodedPlan(source, front + back, data, code, free)
  {
    var table, rest := front + [h] + back, front + back;
    SkipsOne(front, h, back, false);
    SkipsOne(front, h, back, true);
    KeptExactly(h, false);
    hide Kept, Select, DataVerdict, CodeVerdict, Image, Extent, Decoded, CopyAll, CopiesFit, ListDataVerdict,
      ListCodeVerdict, Sorted, CodedProgram, CodeEscapes, Executable;
    assert forall g :: g in table <==> g in rest || g == h;
    assert AllInFile(table, |source|) == AllInFile(rest, |source|);
    assert EndsInFile(table, |source|) == EndsInFile(rest, |source|);
    hide AllInFile, EndsInFile;
    SamePlan(source, table, rest, free);
  }

  lemma SamePlan(source: seq<Byte>, table: Headers, other: Headers, free: seq<Byte>)
    requires Select(table, false) == Select(other, false) && Select(table, true) == Select(other, true)
    requires AllInFile(table, |source|) == AllInFile(other, |source|)
    ensures PlanFor(source, table, free) == PlanFor(source, other, free)
  {
    hide Select, DataVerdict, CodeVerdict, Image, Extent, Decoded, AllInFile, InFile;
    if PlanFor(source, table, free).Map? {
      PlanMaps(source, table, free);
      PlanMaps(source, other, free);
    }
  }

  // ----- why a table is rejected -----

  /** Two entries of one kind overlap in memory. */
  ghost predicate Overlap(table: Headers, executable: bool) {
    exists i, j :: OverlapAt(table, executable, i, j)
  }

  predicate OverlapAt(table: Headers, executable: bool, i: int, j: int) {
    && 0 <= i < j < |table| && IsPart(table[i], executable) && IsPart(table[j], executable)
    && table[i].destinationStart < table[j].destinationStart + table[j].destinationSize
    && table[j].destinationStart < table[i].destinationStart + table[i].destinationSize
  }

  /** The code entries cover the addresses from 0 up to some size of at least 1, each once, and no others. */
  ghost predicate CodeTiles(table: Headers) {
    !Overlap(table, true) && exists n: nat :: CodeEndsAt(table, n)
  }

  ghost predicate CodeEndsAt(table: Headers, n: nat) {
    && n >= 1
    && (forall h :: h in table && LoadableCode(h) ==> h.destinationStart + h.destinationSize <= n)
    && forall a: nat :: a < n ==> CodeAt(table, a)
  }

  ghost predicate CodeAt(table: Headers, a: nat) {
    exists h :: h in table && LoadableCode(h) && h.destinationStart <= a < h.destinationStart + h.destinationSize
  }

  ghost predicate SomeOutside(table: Headers, fileSize: nat) {
    exists h :: h in table && Loadable(h) && h.sourceStart + h.sourceSize > fileSize
  }

  ghost predicate DataBeyond(table: Headers, space: nat) {
    exists h :: h in table && LoadableData(h) && h.destinationStart + h.destinationSize > space
  }

  ghost predicate SomeTruncated(table: Headers) {
    exists h :: h in table && LoadableData(h) && h.sourceSize > h.destinationSize
  }

  ghost predicate SomeCode(table: Headers) {
    exists h :: h in table && LoadableCode(h)
  }

  ghost predicate SomeResized(table: Headers) {
    exists h :: h in table && LoadableCode(h) && h.destinationSize != h.sourceSize
  }

  ghost predicate SomeCodeAtZero(table: Headers) {
    exists h :: h in table && LoadableCode(h) && h.destinationStart == 0
  }

  /** The first reason that applies. */
  ghost function Rejection(table: Headers, fileSize: nat, space: nat): Option<LoadError> {
    if SomeOutside(table, fileSize) then Some(SegmentOutOfBounds)
    else if SomeTruncated(table) then Some(DataTruncated)
    else if Overlap(table, false) then Some(DataOverlap)
    else if !SomeCode(table) then Some(NoCode)
    else if SomeResized(table) then Some(CodeResized)
    else if !SomeCodeAtZero(table) then Some(CodeNotAtZero)
    else if !CodeTiles(table) then Some(CodeNotContiguous)
    else if DataBeyond(table, space) then Some(OutOfMemory)
    else None
  }

  lemma PartMembers(table: Headers, executable: bool)
    ensures forall h :: h in multiset(Select(table, executable)) <==> h in table && IsPart(h, executable)
  {
    hide Kept, Executable, IsPart, Select;
    SelectMembers(table, executable);
    forall h {:trigger IsPart(h, executable)}
      ensures Kept(h) && Executable(h) == executable <==> IsPart(h, executable)
    {
      KeptExactly(h, executable);
    }
    assert forall h :: h in multiset(Select(table, executable)) <==> h in Select(table, executable);
  }

  /** Pairwise disjointness of the selected segments is that of the entries. Entries that are not truncated, or not
      resized, are never empty. */
  lemma ApartExactly(table: Headers, executable: bool)
    ensures AllApart(multiset(Select(table, executable))) ==> !Overlap(table, executable)
    ensures !Overlap(table, executable) ==> AllApart(multiset(Select(table, executable)))
  {
    var m := multiset(Select(table, executable));
    PartMembers(table, executable);
    hide IsPart, Select;
    if i, j :| OverlapAt(table, executable, i, j) {
      OverlapIsNotApart(table, executable, i, j);
    }
    if !AllApart(m) {
      var a, b :| a in m && b in m && (a != b || m[a] > 1) && !Apart(a, b);
      NotApartOverlaps(table, executable, a, b);
    }
  }

  lemma OverlapIsNotApart(table: Headers, executable: bool, i: int, j: int)
    requires OverlapAt(table, executable, i, j)
    ensures !AllApart(multiset(Select(table, executable)))
  {
    var m := multiset(Select(table, executable));
    PartMembers(table, executable);
    hide IsPart, Select;
    assert table[i] in m && table[j] in m && !Apart(table[i], table[j]);
    if table[i] == table[j] {
      TwoOccurrences(table, i, j);
      PartCounts(table, executable, table[i]);
    }
  }

  lemma NotApartOverlaps(table: Headers, executable: bool, a: SegmentHeader, b: SegmentHeader)
    requires var m := multiset(Select(table, executable)); a in m && b in m && (a != b || m[a] > 1) && !Apart(a, b)
    ensures Overlap(table, executable)
  {
    PartMembers(table, executable);
    hide IsPart, Select;
    if a == b {
      PartCounts(table, executable, a);
      var i, j := OccurrencesOf(table, a);
      assert OverlapAt(table, executable, i, j);
    } else {
      var i :| 0 <= i < |table| && table[i] == a;
      var j :| 0 <= j < |table| && table[j] == b;
      assert if i < j then OverlapAt(table, executable, i, j) else OverlapAt(table, executable, j, i);
    }
  }

  lemma PartCounts(table: Headers, executable: bool, h: SegmentHeader)
    ensures multiset(Select(table, executable))[h] == if IsPart(h, executable) then multiset(table)[h] else 0
  {
    hide Kept, Executable, IsPart, Select;
    SelectCounts(table, executable, h);
    KeptExactly(h, executable);
  }

  lemma TilesExactly(table: Headers)
    ensures (exists n: nat :: n >= 1 && Tiles(multiset(Select(table, true)), n)) <==> CodeTiles(table)
  {
    var m := multiset(Select(table, true));
    PartMembers(table, true);
    ApartExactly(table, true);
    hide Select, AllApart, Overlap, Loadable;
    forall n: nat
      ensures n >= 1 && Tiles(m, n) <==> AllApart(m) && CodeEndsAt(table, n)
    {
      TilesAt(table, m, n);
    }
  }

  lemma TilesAt(table: Headers, m: multiset<SegmentHeader>, n: nat)
    requires forall h :: h in m <==> h in table && LoadableCode(h)
    ensures n >= 1 && Tiles(m, n) <==> AllApart(m) && CodeEndsAt(table, n)
  {
    hide AllApart, LoadableCode;
    forall a: nat
      ensures CoveredBy(m, a) <==> CodeAt(table, a)
    {
      if h :| h in m && h.Covers(a) {
        assert CodeAt(table, a);
      }
      if CodeAt(table, a) {
        var h :| h in table && LoadableCode(h) && h.destinationStart <= a < h.destinationStart + h.destinationSize;
        assert h in m && h.Covers(a);
      }
    }
    hide CoveredBy, CodeAt;
  }

  lemma DataVerdictMeans(table: Headers)
    ensures DataVerdict(multiset(Select(table, false))) ==
      if SomeTruncated(table) then Some(DataTruncated) else if Overlap(table, false) then Some(DataOverlap) else None
  {
    PartMembers(table, false);
    ApartExactly(table, false);
    hide Select, AllApart, Overlap, Loadable;
  }

  lemma CodeVerdictMeans(table: Headers)
    ensures CodeVerdict(multiset(Select(table, true))) ==
      if !SomeCode(table) then Some(NoCode)
      else if SomeResized(table) then Some(CodeResized)
      else if !SomeCodeAtZero(table) then Some(CodeNotAtZero)
      else if !CodeTiles(table) then Some(CodeNotContiguous)
      else None
  {
    PartMembers(table, true);
    TilesExactly(table);
    hide Select, Tiles, CodeTiles, Loadable;
    assert multiset(Select(table, true)) == multiset{} <==> !SomeCode(table);
  }

  lemma InFileExactly(table: Headers, fileSize: nat)
    ensures AllInFile(table, fileSize) <==> !SomeOutside(table, fileSize)
  {
    hide Kept, Loadable, Executable;
    forall h {:trigger Loadable(h)}
      ensures Kept(h) <==> Loadable(h)
    {
      KeptExactly(h, true);
    }
  }

  lemma ExtentMeans(table: Headers, executable: bool, n: nat)
    ensures Extent(Select(table, executable)) > n <==>
      exists h :: h in table && IsPart(h, executable) && h.destinationStart + h.destinationSize > n
  {
    PartMembers(table, executable);
    ExtentIsExtent(Select(table, executable));
    hide Select, Extent, IsPart;
  }

  /** The plan rejects a table exactly for the first reason that applies to its entries. */
  lemma RejectsExactly(source: seq<Byte>, table: Headers, free: seq<Byte>, e: LoadError)
    ensures PlanFor(source, table, free) == Reject(e) <==> Rejection(table, |source|, |free|) == Some(e)
  {
    hide Select, Extent, Image, Decoded, AllInFile, InFile, IsPart, DataVerdict, CodeVerdict, SomeOutside,
      SomeTruncated, Overlap, SomeCode, SomeResized, SomeCodeAtZero, CodeTiles, DataBeyond;
    InFileExactly(table, |source|);
    DataVerdictMeans(table);
    CodeVerdictMeans(table);
    BeyondExactly(table, |free|);
  }

  lemma BeyondExactly(table: Headers, space: nat)
    ensures DataBeyond(table, space) <==> Extent(Select(table, false)) > space
  {
    ExtentMeans(table, false, space);
    hide Select, Extent, LoadableData;
  }

  /** A plan that maps fails for want of a vector exactly when some code ends at 2^63 or later. */
  lemma TooLargeExactly(source: seq<Byte>, table: Headers, free: seq<Byte>)
    requires PlanFor(source, table, free).Map?
    ensures PlanFor(source, table, free).program == Failure(CodeTooLarge) <==>
      exists h :: h in table && LoadableCode(h) && h.destinationStart + h.destinationSize >= 0x8000_0000_0000_0000
  {
    hide PlanFor, Select, Extent, Image, DecodeProgram, LoadableCode;
    PlanMaps(source, table, free);
    ExtentMeans(table, true, 0x7fff_ffff_ffff_ffff);
  }

  // ----- whole files -----

  /** A file's plan rejects it exactly for its header or for the first reason that applies to its table; and entries of
      other types, wherever they stand in a file's table, count for nothing. */
  lemma FileRejectsExactly(source: File, free: Span, e: LoadError)
    ensures FilePlan(source, free) == Reject(e) <==>
      || HeaderVerdict(source) == Some(e)
      || (HeaderVerdict(source).None? && TableInFile(source)
          && Rejection(TableOf(source), |source|, |free|) == Some(e))
  {
    hide HeaderVerdict, TableOf, TableInFile, PlanFor, Rejection;
    if HeaderVerdict(source).None? && TableInFile(source) {
      RejectsExactly(source, TableOf(source), free, e);
    }
  }

  /** Whatever is read of a file does what it would with the entries of other types left out of its table. */
  lemma FileSkipsOtherEntries(source: File, front: Headers, h: SegmentHeader, back: Headers, data: Headers,
                              code: Headers, free: Span)
    requires HeaderVerdict(source).None? && TableInFile(source) && TableOf(source) == front + [h] + back
    requires h.kind != 1
    ensures FilePlan(source, free) == PlanFor(source, front + back, free)
    ensures CodedFilePlan(source, data, code, free) == CodedPlan(source, front + back, data, code, free)
  {
    hide HeaderVerdict, TableOf, TableInFile, PlanFor, CodedPlan;
    OtherEntriesAreSkipped(source, front, h, back, data, code, free);
  }
}
