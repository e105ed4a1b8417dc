/** What loading an ELF file is to do, as a function of the program header table that does not look at the order
    of its entries: `PlanFor`. `CodedPlans` proves exactly when what is coded does the same. */
module Layout {
  import opened Bits
  import opened Memory
  import opened Segments
  import opened Images
  import opened Instructions
  import opened Program
  import opened Results

  datatype LoadError =
    | FileTooSmall | InvalidHeader | EntryNotZero | ProgramHeadersOutOfBounds
    | SegmentOutOfBounds
    | DataTruncated | DataOverlap
    | NoCode | CodeResized | CodeNotAtZero | CodeNotContiguous
    | OutOfMemory
    | CodeTooLarge        // `std::vector` throws: it cannot hold as many bytes
    | BadProgram(error: DecodeError)
    | OutOfBoundsAccess   // an access outside the file, the arena's storage or the vector, which C++ leaves undefined

  // ----- the segments that are loaded -----

  const TYPE_LOAD: int := 1
  const FLAG_EXECUTABLE: int := 1

  predicate Kept(h: SegmentHeader) {
    h.kind == TYPE_LOAD && !(h.sourceSize == 0 && h.destinationSize == 0)
  }

  predicate Executable(h: SegmentHeader) {
    And(h.flags, FLAG_EXECUTABLE) != 0
  }

  /** The executable flag is bit 0 (PF_X), whatever the other flags are. */
  lemma ExecutableIsLowBit(h: SegmentHeader)
    ensures Executable(h) <==> h.flags % 2 == 1
  {
    hide And;
    AndOneBits(h.flags, 1);
  }

  /** The loadable code segments, or the loadable data segments, in table order. */
  function Select(table: Headers, executable: bool): Headers {
    if table == [] then []
    else
      var front, last := Select(table[..|table| - 1], executable), table[|table| - 1];
      if Kept(last) && Executable(last) == executable then front + [last] else front
  }

  lemma {:induction false} SelectMembers(table: Headers, executable: bool)
    ensures forall h :: h in Select(table, executable) <==> h in table && Kept(h) && Executable(h) == executable
  {
    if table != [] {
      var front, last := table[..|table| - 1], table[|table| - 1];
      SelectMembers(front, executable);
      assert table == front + [last];
    }
  }

  lemma {:induction false} SelectSize(table: Headers, executable: bool)
    ensures |Select(table, executable)| <= |table|
  {
    if table != [] {
      SelectSize(table[..|table| - 1], executable);
    }
  }

  lemma {:induction false} SelectCounts(table: Headers, executable: bool, h: SegmentHeader)
    ensures multiset(Select(table, executable))[h] ==
      if Kept(h) && Executable(h) == executable then multiset(table)[h] else 0
  {
    if table != [] {
      var front, last := table[..|table| - 1], table[|table| - 1];
      SelectCounts(front, executable, h);
      assert table == front + [last];
    }
  }

  /** The largest end of the segments. */
  function Extent(xs: Headers): nat {
    if xs == [] then 0
    else
      var before, last := Extent(xs[..|xs| - 1]), xs[|xs| - 1].End();
      if last > before then last else before
  }

  ghost predicate IsExtent(m: multiset<SegmentHeader>, n: nat) {
    && (forall h :: h in m ==> h.End() <= n)
    && (m != multiset{} ==> exists h :: h in m && h.End() == n)
    && (m == multiset{} ==> n == 0)
  }

  lemma {:induction false} ExtentIsExtent(xs: Headers)
    ensures IsExtent(multiset(xs), Extent(xs))
  {
    if xs != [] {
      var front, last := xs[..|xs| - 1], xs[|xs| - 1];
      ExtentIsExtent(front);
      assert xs == front + [last];
      assert multiset(xs) == multiset(front) + multiset{last};
      assert last in multiset(xs);
      if Extent(xs) != last.End() {
        assert multiset(front) != multiset{};
        var h: SegmentHeader :| h in multiset(front) && h.End() == Extent(front);
        assert h in multiset(xs);
      }
    }
  }

  lemma SameExtent(xs: Headers, ys: Headers)
    requires multiset(xs) == multiset(ys)
    ensures Extent(xs) == Extent(ys)
  {
    ExtentIsExtent(xs);
    ExtentIsExtent(ys);
  }

  lemma OrderedExtent(xs: Headers)
    requires xs != [] && NoneEmpty(xs) && Ordered(xs)
    ensures Extent(xs) == xs[|xs| - 1].End()
  {
    ExtentIsExtent(xs);
    LastEndIsLargest(xs);
    assert xs[|xs| - 1] in multiset(xs);
  }

  // ----- verdicts on the segments, in any order -----

  ghost function DataVerdict(m: multiset<SegmentHeader>): Option<LoadError> {
    if exists h :: h in m && !Untruncated(h) then Some(DataTruncated)
    else if !AllApart(m) then Some(DataOverlap)
    else None
  }

  ghost function CodeVerdict(m: multiset<SegmentHeader>): Option<LoadError> {
    if m == multiset{} then Some(NoCode)
    else if exists h :: h in m && h.destinationSize != h.sourceSize then Some(CodeResized)
    else if forall h :: h in m ==> h.destinationStart != 0 then Some(CodeNotAtZero)
    else if !exists n: nat :: n >= 1 && Tiles(m, n) then Some(CodeNotContiguous)
    else None
  }

  /** The verdicts that the checks as coded reach on a list. */
  ghost function ListDataVerdict(xs: Headers): Option<LoadError> {
    if exists h :: h in xs && !Untruncated(h) then Some(DataTruncated)
    else if !NeighboursApart(xs) then Some(DataOverlap)
    else None
  }

  ghost function ListCodeVerdict(xs: Headers): Option<LoadError> {
    if xs == [] then Some(NoCode)
    else if exists h :: h in xs && h.destinationSize != h.sourceSize then Some(CodeResized)
    else if xs[0].destinationStart != 0 then Some(CodeNotAtZero)
    else if !NeighboursJoin(xs) then Some(CodeNotContiguous)
    else None
  }

  ghost predicate AllKept(xs: Headers) {
    forall h :: h in xs ==> Kept(h)
  }

  /** Segments that are loaded and not truncated have at least one byte. */
  lemma KeptNoneEmpty(xs: Headers)
    requires AllKept(xs) && forall h :: h in xs ==> Untruncated(h)
    ensures NoneEmpty(xs)
  {
  }

  /** The coded checks of a sorted arrangement reach the verdict on the segments as such, except that they accept
      some lists in which a segment before the last wraps. */
  lemma DataVerdictExactly(xs: Headers)
    requires Sorted(xs) && AllKept(xs)
    ensures ListDataVerdict(xs) == DataVerdict(multiset(xs)) <==> (ListDataVerdict(xs).None? ==> NoneButLastWraps(xs))
    ensures DataVerdict(multiset(xs)).None? ==> ListDataVerdict(xs).None?
  {
    assert forall h :: h in multiset(xs) <==> h in xs;
    if forall h :: h in xs ==> Untruncated(h) {
      KeptNoneEmpty(xs);
      AllApartExactly(xs);
    }
  }

  lemma CodeVerdictExactly(xs: Headers)
    requires Sorted(xs) && AllKept(xs)
    ensures ListCodeVerdict(xs) == CodeVerdict(multiset(xs)) <==> (ListCodeVerdict(xs).None? ==> NoneButLastWraps(xs))
    ensures CodeVerdict(multiset(xs)).None? ==> ListCodeVerdict(xs).None?
  {
    hide NeighboursJoin, Tiles;
    var m := multiset(xs);
    assert forall h :: h in m <==> h in xs;
    if xs != [] && forall h :: h in xs ==> h.destinationSize == h.sourceSize {
      KeptNoneEmpty(xs);
      NeighboursJoinExactly(xs);
      FirstIsLowest(xs);
      JoinStartsAtZero(xs);
      assert xs[0] in m;
    }
  }

  /** Accepted code segments of a file below 2^48 bytes do not wrap. */
  lemma SmallFileCode(xs: Headers, fileSize: nat)
    requires |xs| < 0x1_0000 && fileSize < 0x1_0000_0000_0000 && ListCodeVerdict(xs).None?
    requires forall h :: h in xs ==> h.FileEnd() <= fileSize
    ensures NoneWraps(xs)
  {
    CodeSizes(xs, fileSize);
  }

  lemma JoinStartsAtZero(xs: Headers)
    ensures NeighboursJoin(xs) ==> xs != [] && xs[0].destinationStart == 0
  {
  }

  lemma FirstIsLowest(xs: Headers)
    requires xs != [] && Sorted(xs)
    ensures (forall h :: h in multiset(xs) ==> h.destinationStart != 0) <==> xs[0].destinationStart != 0
  {
    assert xs[0] in multiset(xs);
    forall h | h in multiset(xs)
      ensures xs[0].destinationStart <= h.destinationStart
    {
      assert h in xs;
      var i :| 0 <= i < |xs| && xs[i] == h;
    }
  }

  lemma NoneWrapsFront(xs: Headers)
    requires NoneWraps(xs)
    ensures NoneButLastWraps(xs) && !LastWraps(xs)
  {
    assert forall k :: 0 <= k < |xs| ==> xs[k] in xs;
  }

  /** Ties in the sort do not matter: two sorted arrangements of the same segments get the same verdicts, and if the
      verdict is favourable they are the same list. */
  lemma TiesDoNotMatter(xs: Headers, ys: Headers)
    requires multiset(xs) == multiset(ys) && Sorted(xs) && Sorted(ys) && AllKept(xs) && NoneWraps(xs)
    ensures ListDataVerdict(xs) == ListDataVerdict(ys) && ListCodeVerdict(xs) == ListCodeVerdict(ys)
    ensures ListDataVerdict(xs).None? || ListCodeVerdict(xs).None? ==> xs == ys
  {
    assert forall h :: h in xs <==> h in multiset(xs);
    assert forall h :: h in ys <==> h in multiset(ys);
    NoneWrapsFront(xs);
    NoneWrapsFront(ys);
    DataVerdictExactly(xs);
    DataVerdictExactly(ys);
    CodeVerdictExactly(xs);
    CodeVerdictExactly(ys);
    if ListDataVerdict(xs).None? || ListCodeVerdict(xs).None? {
      AcceptedIsOrdered(xs);
      AcceptedIsOrdered(ys);
      OrderedIsUnique(xs, ys);
    }
  }

  /** With ends that wrap they do matter: of two segments that start at the same address, one order passes. */
  lemma WrappedTiesMatter()
    ensures var a, b := SegmentHeader(1, 0, 0, 16, 0, 0xffff_ffff_ffff_fff8), SegmentHeader(1, 0, 0, 16, 0, 8);
      && Sorted([a, b]) && Sorted([b, a]) && AllKept([a, b]) && multiset([a, b]) == multiset([b, a])
      && ListDataVerdict([a, b]) == None && ListDataVerdict([b, a]) == Some(DataOverlap)
  {
    var a, b := SegmentHeader(1, 0, 0, 16, 0, 0xffff_ffff_ffff_fff8), SegmentHeader(1, 0, 0, 16, 0, 8);
    EndIsExact(a);
    EndIsExact(b);
    assert [b, a][0].DestinationEnd() > [b, a][1].destinationStart;
  }

  lemma AcceptedIsOrdered(xs: Headers)
    requires Sorted(xs) && AllKept(xs) && NoneButLastWraps(xs)
    requires ListDataVerdict(xs).None? || ListCodeVerdict(xs).None?
    ensures NoneEmpty(xs) && Ordered(xs) && NeighboursApart(xs) && forall h :: h in xs ==> Untruncated(h)
  {
    KeptNoneEmpty(xs);
    if ListDataVerdict(xs).None? {
      AllApartExactly(xs);
      OrderedIsAllApart(xs);
    } else {
      JoinedTiles(xs);
      AcceptedCodeIsApart(xs);
    }
  }

  lemma AcceptedCodeIsApart(xs: Headers)
    requires ListCodeVerdict(xs).None?
    ensures xs != [] && NeighboursApart(xs) && forall h :: h in xs ==> h.destinationSize == h.sourceSize
  {
  }

  // ----- the plan -----

  /** Reject, leaving the emulator alone; give the free part of memory its new contents and then either set the
      program or fail; or access bytes outside the file, the arena's storage or the code vector, after which C++
      defines nothing. */
  datatype Plan =
    | Reject(error: LoadError)
    | Map(memory: seq<Byte>, program: Result<seq<Instruction>, LoadError>)
    | Undefined

  /** Decoding, with the loader's errors. */
  ghost function Decoded(bytes: seq<Byte>): Result<seq<Instruction>, LoadError> {
    match DecodeProgram(bytes)
    case Success(instructions) => Success(instructions)
    case Failure(e) => Failure(BadProgram(e))
  }

  ghost predicate AllInFile(table: Headers, fileSize: nat) {
    forall h :: h in table && Kept(h) ==> h.FileEnd() <= fileSize
  }

  /** The plan for a file and for the free part of guest memory. */
  ghost function PlanFor(source: seq<Byte>, table: Headers, free: seq<Byte>): Plan {
    var data, code := Select(table, false), Select(table, true);
    if !AllInFile(table, |source|) then Reject(SegmentOutOfBounds)
    else if DataVerdict(multiset(data)).Some? then Reject(DataVerdict(multiset(data)).value)
    else if CodeVerdict(multiset(code)).Some? then Reject(CodeVerdict(multiset(code)).value)
    else if Extent(data) > |free| then Reject(OutOfMemory)
    else
      SelectMembers(table, false);
      SelectMembers(table, true);
      Map(Image(multiset(data), source, Extent(data)) + free[Extent(data)..],
          if Extent(code) >= OBJECT_LIMIT then Failure(CodeTooLarge)
          else Decoded(Image(multiset(code), source, Extent(code))))
  }

  /** What holds of the segments when a plan maps. */
  lemma PlanMaps(source: seq<Byte>, table: Headers, free: seq<Byte>)
    requires PlanFor(source, table, free).Map?
    ensures var plan := PlanFor(source, table, free);
      var data, code := Select(table, false), Select(table, true);
      && AllInFile(table, |source|) && InFile(multiset(data), source) && InFile(multiset(code), source)
      && DataVerdict(multiset(data)).None? && CodeVerdict(multiset(code)).None? && Extent(data) <= |free|
      && plan.memory == Image(multiset(data), source, Extent(data)) + free[Extent(data)..]
      && plan.program == (if Extent(code) >= OBJECT_LIMIT then Failure(CodeTooLarge)
                          else Decoded(Image(multiset(code), source, Extent(code))))
  {
    hide DataVerdict, CodeVerdict, Image, Decoded, Select, Extent;
    SelectMembers(table, false);
    SelectMembers(table, true);
  }

  /** Two files hold the same bytes for every segment that is loaded. */
  ghost predicate SameContents(source: seq<Byte>, other: seq<Byte>, table: Headers) {
    && |source| == |other|
    && forall h :: h in table && Kept(h) && h.FileEnd() <= |source| ==>
         source[h.sourceStart..h.FileEnd()] == other[h.sourceStart..h.FileEnd()]
  }

  /** Header-order independence: permuting the program header table changes neither the rejection nor the images.
      (In a file, the table itself may lie inside a segment; then permuting it changes that segment's contents,
      so the files are only asked to agree on the contents of the segments.) */
  lemma HeaderOrderIrrelevant(source: seq<Byte>, other: seq<Byte>, table: Headers, permuted: Headers,
                              free: seq<Byte>)
    requires multiset(table) == multiset(permuted) && SameContents(source, other, table)
    ensures PlanFor(source, table, free) == PlanFor(other, permuted, free)
  {
    hide DataVerdict, CodeVerdict, Image, Decoded, Select, Extent, AllInFile, InFile;
    SamePart(table, permuted, false);
    SamePart(table, permuted, true);
    SameInFile(table, permuted, |source|);
    if PlanFor(source, table, free).Map? {
      SameImages(source, other, table, free);
      PlanMaps(source, table, free);
      PlanMaps(other, permuted, free);
    }
  }

  lemma SameInFile(table: Headers, permuted: Headers, fileSize: nat)
    requires multiset(table) == multiset(permuted)
    ensures AllInFile(table, fileSize) == AllInFile(permuted, fileSize)
  {
    assert forall h :: h in table <==> h in multiset(table);
    assert forall h :: h in permuted <==> h in multiset(permuted);
  }

  lemma SameImages(source: seq<Byte>, other: seq<Byte>, table: Headers, free: seq<Byte>)
    requires PlanFor(source, table, free).Map? && SameContents(source, other, table)
    ensures var d, c := multiset(Select(table, false)), multiset(Select(table, true));
      && InFile(d, source) && InFile(c, source) && InFile(d, other) && InFile(c, other)
      && Image(d, source, Extent(Select(table, false))) == Image(d, other, Extent(Select(table, false)))
      && Image(c, source, Extent(Select(table, true))) == Image(c, other, Extent(Select(table, true)))
  {
    hide Image, Decoded, PlanFor, Select, Extent;
    var data, code := Select(table, false), Select(table, true);
    PlanMaps(source, table, free);
    SelectMembers(table, false);
    SelectMembers(table, true);
    CodeIsApart(multiset(code));
    SameImage(multiset(data), source, other, Extent(data));
    SameImage(multiset(code), source, other, Extent(code));
  }

  lemma SamePart(table: Headers, permuted: Headers, executable: bool)
    requires multiset(table) == multiset(permuted)
    ensures multiset(Select(table, executable)) == multiset(Select(permuted, executable))
    ensures Extent(Select(table, executable)) == Extent(Select(permuted, executable))
  {
    var m, n := multiset(Select(table, executable)), multiset(Select(permuted, executable));
    forall h
      ensures m[h] == n[h]
    {
      SelectCounts(table, executable, h);
      SelectCounts(permuted, executable, h);
    }
    assert m == n;
    SameExtent(Select(table, executable), Select(permuted, executable));
  }

  lemma CodeIsApart(m: multiset<SegmentHeader>)
    requires CodeVerdict(m).None?
    ensures AllApart(m) && forall h :: h in m ==> Untruncated(h)
  {
  }

  lemma SameImage(m: multiset<SegmentHeader>, source: seq<Byte>, other: seq<Byte>, n: nat)
    requires InFile(m, source) && InFile(m, other) && AllApart(m) && forall h :: h in m ==> Untruncated(h)
    requires forall h :: h in m ==> source[h.sourceStart..h.FileEnd()] == other[h.sourceStart..h.FileEnd()]
    ensures Image(m, source, n) == Image(m, other, n)
  {
    forall a | 0 <= a < n
      ensures Image(m, source, n)[a] == Image(m, other, n)[a]
    {
      ImageBytes(m, source, n, a);
      ImageBytes(m, other, n, a);
      if h :| h in m && h.Fills(a) {
        var k := a - h.destinationStart;
        assert source[h.sourceStart..h.FileEnd()][k] == other[h.sourceStart..h.FileEnd()][k];
      }
    }
  }

  // ----- what a plan that maps promises -----

  /** Guest memory is byte-exact: up to the largest end, every address in a segment's file part holds the segment's
      file byte, and every other address is zero; beyond it nothing changes. */
  lemma DataImageIsExact(source: seq<Byte>, table: Headers, free: seq<Byte>, a: nat)
    requires PlanFor(source, table, free).Map? && a < |free|
    ensures var data, memory := Select(table, false), PlanFor(source, table, free).memory;
      var n := Extent(data);
      && IsExtent(multiset(data), n) && n <= |free| == |memory|
      && (forall h :: h in data && h.Fills(a) ==>
            a < n && h.FileEnd() <= |source| && memory[a] == FileByte(h, source, a))
      && (a < n && (forall h :: h in data ==> !h.Fills(a)) ==> memory[a] == 0)
      && (a >= n ==> memory[a] == free[a])
  {
    hide PlanFor, Select, Extent, Image, CodeVerdict, Decoded, AllInFile, AllApart, FileByte;
    var data := Select(table, false);
    PlanMaps(source, table, free);
    ExtentIsExtent(data);
    assert forall h :: h in data <==> h in multiset(data);
    UntruncatedInside(data, Extent(data));
    if a < Extent(data) {
      ImageBytes(multiset(data), source, Extent(data), a);
    }
  }

  lemma UntruncatedInside(data: Headers, n: nat)
    requires DataVerdict(multiset(data)).None? && IsExtent(multiset(data), n)
    ensures AllApart(multiset(data)) && forall h :: h in multiset(data) ==> Untruncated(h)
    ensures forall h, a: nat :: h in data && h.Fills(a) ==> a < n
  {
    hide AllApart;
    forall h, a: nat | h in data && h.Fills(a)
      ensures a < n
    {
      assert h in multiset(data) && Untruncated(h);
    }
  }

  /** The code image is an exact tiling: every one of its bytes comes from exactly one segment, at the matching
      file offset, and no filler byte is left. */
  lemma CodeImageIsExact(source: seq<Byte>, table: Headers, free: seq<Byte>, a: nat)
    requires PlanFor(source, table, free).Map? && a < Extent(Select(table, true))
    ensures var m, n := multiset(Select(table, true)), Extent(Select(table, true));
      && Tiles(m, n) && InFile(m, source)
      && PlanFor(source, table, free).program ==
           (if n >= OBJECT_LIMIT then Failure(CodeTooLarge) else Decoded(Image(m, source, n)))
      && exists h :: (h in m && h.Fills(a) && m[h] == 1 && Image(m, source, n)[a] == FileByte(h, source, a)
           && forall g :: g in m && g.Fills(a) ==> g == h)
  {
    var code := Select(table, true);
    hide PlanFor, Select, Extent, Image, Decoded;
    var m, n := multiset(code), Extent(code);
    PlanMaps(source, table, free);
    CodeIsApart(m);
    TilesToExtent(code);
    ImageBytes(m, source, n, a);
    assert CoveredBy(m, a);
    var h :| h in m && h.Covers(a);
    assert h.Fills(a);
    forall g | g in m && g.Fills(a)
      ensures g == h
    {
      OneFiller(m, g, h, a);
    }
  }

  lemma TilesToExtent(xs: Headers)
    requires CodeVerdict(multiset(xs)).None?
    ensures Extent(xs) >= 1 && Tiles(multiset(xs), Extent(xs))
  {
    var m := multiset(xs);
    ExtentIsExtent(xs);
    var n: nat :| n >= 1 && Tiles(m, n);
    assert CoveredBy(m, n - 1);
    var h :| h in m && h.Covers(n - 1);
    assert Extent(xs) == n;
  }
}
