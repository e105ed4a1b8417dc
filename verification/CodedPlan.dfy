/** What the loader's checks and copies, as they are coded (src/riscv/elf.cpp:127-255), do to the program header
    table: `CodedPlan`. Sums that wrap can mislead a check; exactly when they do, the loader departs from the plan of
    `Layout`; and exactly for some of them it accesses bytes outside the file, the arena's storage or the code. */
module CodedPlans {
  import opened Bits
  import opened Memory
  import opened Segments
  import opened Images
  import opened Instructions
  import opened Layout
  import opened Results

  /** The check of the file bounds as coded. */
  ghost predicate EndsInFile(table: Headers, fileSize: nat) {
    forall h :: h in table && Kept(h) ==> h.SourceEnd() <= fileSize
  }

  ghost predicate NoSourceWraps(table: Headers) {
    forall h :: h in table && Kept(h) ==> !h.SourceWraps()
  }

  /** Sorted arrangements of the data segments and of the code segments. */
  ghost predicate Arranged(table: Headers, data: Headers, code: Headers) {
    && Sorted(data) && multiset(data) == multiset(Select(table, false))
    && Sorted(code) && multiset(code) == multiset(Select(table, true))
  }

  /** What the checks and copies come to, for the arrangements that sorting left and the free part of memory. The
      data is copied into the arena's storage, which goes on after the block that was allocated and zeroed; the code
      into a vector of its own, which throws if it cannot hold it. */
  ghost function CodedPlan(source: seq<Byte>, table: Headers, data: Headers, code: Headers, free: seq<Byte>): Plan {
    if !EndsInFile(table, |source|) then Reject(SegmentOutOfBounds)
    else if ListDataVerdict(data).Some? then Reject(ListDataVerdict(data).value)
    else if ListCodeVerdict(code).Some? then Reject(ListCodeVerdict(code).value)
    else if LastEnd(data) > |free| then Reject(OutOfMemory)
    else if !CopiesFit(data, |source|, |free|) || CodeEscapes(code, |source|) then Undefined
    else Map(CopyAll(data, source, Zeroed(LastEnd(data), free)), CodedProgram(code, source))
  }

  /** A copy leaves the file or the code vector, which was allocated. */
  ghost predicate CodeEscapes(code: Headers, fileSize: nat) {
    LastEnd(code) < OBJECT_LIMIT && !CopiesFit(code, fileSize, LastEnd(code))
  }

  ghost function CodedProgram(code: Headers, source: seq<Byte>): Result<seq<Instruction>, LoadError>
    requires !CodeEscapes(code, |source|)
  {
    if LastEnd(code) >= OBJECT_LIMIT then Failure(CodeTooLarge)
    else Decoded(CopyAll(code, source, Zeros(LastEnd(code))))
  }

  lemma ArrangedMembers(table: Headers, data: Headers, code: Headers)
    requires Arranged(table, data, code)
    ensures forall h :: h in data <==> h in table && Kept(h) && !Executable(h)
    ensures forall h :: h in code <==> h in table && Kept(h) && Executable(h)
    ensures AllKept(data) && AllKept(code)
  {
    hide Kept, Executable;
    SelectMembers(table, false);
    SelectMembers(table, true);
    assert forall h :: h in data <==> h in multiset(data);
    assert forall h :: h in code <==> h in multiset(code);
    assert forall h :: h in Select(table, false) <==> h in multiset(Select(table, false));
    assert forall h :: h in Select(table, true) <==> h in multiset(Select(table, true));
    hide Select;
  }

  // ----- memory safety -----

  /** Every check, as coded, accepts. */
  ghost predicate Passes(table: Headers, data: Headers, code: Headers, fileSize: nat, space: nat) {
    && EndsInFile(table, fileSize) && ListDataVerdict(data).None? && ListCodeVerdict(code).None?
    && LastEnd(data) <= space
  }

  /** Memory safety of loading, with its exact condition on the headers: an access leaves the file, the arena's storage
      or the code vector if and only if every check accepts and the data does not stay inside the free memory, or
      the code, if a vector can hold it, does not stay inside its own. */
  lemma UndefinedExactly(source: Span, table: Headers, data: Headers, code: Headers, free: seq<Byte>)
    requires Arranged(table, data, code)
    ensures CodedPlan(source, table, data, code, free).Undefined? <==>
      && Passes(table, data, code, |source|, |free|)
      && (!StaysInside(data, |free|) || (LastEnd(code) < OBJECT_LIMIT && !StaysInside(code, LastEnd(code))))
  {
    hide Arranged, StaysInside, CopiesFit, LastEnd, CodedProgram, CopyAll, ListDataVerdict, ListCodeVerdict;
    if Passes(table, data, code, |source|, |free|) {
      AcceptedFits(source, table, data, code, |free|);
    }
  }

  lemma AcceptedFits(source: Span, table: Headers, data: Headers, code: Headers, space: nat)
    requires Arranged(table, data, code) && EndsInFile(table, |source|) && LastEnd(data) <= space
    requires ListDataVerdict(data).None? && ListCodeVerdict(code).None?
    ensures CopiesFit(data, |source|, space) <==> StaysInside(data, space)
    ensures CopiesFit(code, |source|, LastEnd(code)) <==> StaysInside(code, LastEnd(code))
  {
    hide StaysInside, CopiesFit, LastEnd, Select;
    ArrangedMembers(table, data, code);
    AcceptedCodeIsApart(code);
    CopiesFitExactly(data, |source|, space);
    CopiesFitExactly(code, |source|, LastEnd(code));
  }

  /** For code segments the condition is that no sum wraps. */
  lemma CodeStaysInside(code: Headers)
    requires ListCodeVerdict(code).None?
    ensures StaysInside(code, LastEnd(code)) <==> NoneWraps(code) && forall h :: h in code ==> !h.SourceWraps()
  {
    AcceptedCodeIsApart(code);
    UnresizedStaysInside(code);
  }

  // ----- agreement with the plan -----

  /** A wrapped sum misleads a check. Every segment passes the check of the file bounds, and one of these is the case,
      in the order of the checks: a source end wraps; the data is accepted although a segment before the last wraps;
      the same for the code; or the end of the last data or code segment wraps, and the data fits. */
  ghost predicate Misled(table: Headers, data: Headers, code: Headers, fileSize: nat, space: nat) {
    EndsInFile(table, fileSize)
    && (!NoSourceWraps(table) || (ListDataVerdict(data).None? && MisledByEnds(data, code, space)))
  }

  ghost predicate MisledByEnds(data: Headers, code: Headers, space: nat) {
    || !NoneButLastWraps(data)
    || (ListCodeVerdict(code).None?
        && (|| !NoneButLastWraps(code)
            || (LastEnd(data) <= space && (LastWraps(data) || LastWraps(code)))))
  }

  /** The loader follows the plan, with the exact condition: for every table, and for every arrangement that sorting
      may leave, what is coded is what the order-free plan says if and only if no wrapped sum misleads a check. */
  lemma FollowsPlanExactly(source: File, table: Headers, data: Headers, code: Headers, free: Span)
    requires Arranged(table, data, code)
    ensures CodedPlan(source, table, data, code, free) == PlanFor(source, table, free) <==>
      !Misled(table, data, code, |source|, |free|)
  {
    hide Arranged, ListDataVerdict, ListCodeVerdict, DataVerdict, CodeVerdict, NoneButLastWraps, LastWraps, LastEnd,
      Extent, Image, Decoded, CodedProgram, CopyAll, Select, CopiesFit, InFile, EndsInFile, NoSourceWraps, AllInFile,
      CodeEscapes;
    FileBounds(table, |source|);
    ArrangedVerdicts(table, data, code);
    DataErrors(data, multiset(Select(table, false)));
    CodeErrors(code, multiset(Select(table, true)));
    if ListDataVerdict(data).None? && NoneButLastWraps(data) {
      ArrangedExtent(table, data, code);
    }
    if Passes(table, data, code, |source|, |free|) && AllInFile(table, |source|)
       && NoneButLastWraps(data) && NoneButLastWraps(code) && !LastWraps(data)
    {
      if LastWraps(code) {
        LastEscapes(source, table, data, code);
      } else {
        CopiesLeaveImages(source, table, data, code, free);
      }
    }
  }

  lemma FileBounds(table: Headers, fileSize: nat)
    requires fileSize < TWO_64
    ensures AllInFile(table, fileSize) <==> EndsInFile(table, fileSize) && NoSourceWraps(table)
  {
    forall h | h in table { EndIsExact(h); }
  }

  lemma ArrangedVerdicts(table: Headers, data: Headers, code: Headers)
    requires Arranged(table, data, code)
    ensures var d, c := DataVerdict(multiset(Select(table, false))), CodeVerdict(multiset(Select(table, true)));
      && (ListDataVerdict(data) == d <==> (ListDataVerdict(data).None? ==> NoneButLastWraps(data)))
      && (ListCodeVerdict(code) == c <==> (ListCodeVerdict(code).None? ==> NoneButLastWraps(code)))
      && (d.None? ==> ListDataVerdict(data).None?) && (c.None? ==> ListCodeVerdict(code).None?)
  {
    hide ListDataVerdict, ListCodeVerdict, DataVerdict, CodeVerdict, Select;
    ArrangedMembers(table, data, code);
    DataVerdictExactly(data);
    CodeVerdictExactly(code);
  }

  lemma DataErrors(xs: Headers, m: multiset<SegmentHeader>)
    ensures ListDataVerdict(xs) in {None, Some(DataTruncated), Some(DataOverlap)}
    ensures DataVerdict(m) in {None, Some(DataTruncated), Some(DataOverlap)}
  {
  }

  lemma CodeErrors(xs: Headers, m: multiset<SegmentHeader>)
    ensures ListCodeVerdict(xs) in {None, Some(NoCode), Some(CodeResized), Some(CodeNotAtZero), Some(CodeNotContiguous)}
    ensures CodeVerdict(m) in {None, Some(NoCode), Some(CodeResized), Some(CodeNotAtZero), Some(CodeNotContiguous)}
  {
    hide NeighboursJoin, Tiles;
  }

  /** The end of the last segment, as coded, is the largest end unless it wraps; then it is smaller. */
  lemma LastEndIsExtent(xs: Headers)
    requires Sorted(xs) && AllKept(xs) && NoneButLastWraps(xs)
    requires ListDataVerdict(xs).None? || ListCodeVerdict(xs).None?
    ensures LastEnd(xs) <= Extent(xs)
    ensures if LastWraps(xs) then Extent(xs) >= TWO_64 else LastEnd(xs) == Extent(xs)
  {
    hide ListDataVerdict, ListCodeVerdict;
    AcceptedIsOrdered(xs);
    if xs != [] {
      OrderedExtent(xs);
      EndIsExact(xs[|xs| - 1]);
    }
  }

  lemma ArrangedExtent(table: Headers, data: Headers, code: Headers)
    requires Arranged(table, data, code) && ListDataVerdict(data).None? && NoneButLastWraps(data)
    ensures var n := Extent(Select(table, false));
      LastEnd(data) <= n && if LastWraps(data) then n >= TWO_64 else LastEnd(data) == n
  {
    hide ListDataVerdict, ListCodeVerdict, Select, LastWraps, LastEnd, Extent;
    ArrangedMembers(table, data, code);
    LastEndIsExtent(data);
    SameExtent(data, Select(table, false));
  }

  /** A wrapping end of the last code segment is below the file size, and the copy does not end there. */
  lemma LastEscapes(source: File, table: Headers, data: Headers, code: Headers)
    requires Arranged(table, data, code) && AllInFile(table, |source|) && ListCodeVerdict(code).None? && LastWraps(code)
    ensures CodeEscapes(code, |source|)
  {
    hide ListCodeVerdict, Select, Kept, Executable;
    ArrangedMembers(table, data, code);
    AcceptedCodeIsApart(code);
    var last := code[|code| - 1];
    assert last in code;
    EndIsExact(last);
  }

  /** Where no sum wraps, copying the accepted lists leaves the images. */
  lemma CopiesLeaveImages(source: Span, table: Headers, data: Headers, code: Headers, free: seq<Byte>)
    requires Arranged(table, data, code) && AllInFile(table, |source|) && LastEnd(data) <= |free|
    requires ListDataVerdict(data).None? && ListCodeVerdict(code).None?
    requires NoneButLastWraps(data) && !LastWraps(data) && NoneButLastWraps(code) && !LastWraps(code)
    ensures var d, c := Select(table, false), Select(table, true);
      && InFile(multiset(d), source) && InFile(multiset(c), source)
      && Extent(d) == LastEnd(data)
      && CopiesFit(data, |source|, |free|) && !CodeEscapes(code, |source|)
      && CopyAll(data, source, Zeroed(LastEnd(data), free)) == Image(multiset(d), source, Extent(d)) + free[Extent(d)..]
      && CodedProgram(code, source) ==
           if Extent(c) >= OBJECT_LIMIT then Failure(CodeTooLarge) else Decoded(Image(multiset(c), source, Extent(c)))
  {
    hide ListDataVerdict, ListCodeVerdict, Select, LastEnd, LastWraps, NoneButLastWraps, Image, CopyAll, CopiesFit,
      Kept, Executable, Extent, Decoded;
    ArrangedMembers(table, data, code);
    CopiesLeaveImage(source, data);
    CopiesLeaveImage(source, code);
    SameExtent(data, Select(table, false));
    SameExtent(code, Select(table, true));
    CopyAllInFront(data, source, Zeros(LastEnd(data)), free[LastEnd(data)..]);
    LastEndIsExtent(code);
    LastEndIsExtent(data);
  }

  lemma CopiesLeaveImage(source: Span, xs: Headers)
    requires Sorted(xs) && AllKept(xs) && NoneButLastWraps(xs) && !LastWraps(xs)
    requires ListDataVerdict(xs).None? || ListCodeVerdict(xs).None?
    requires forall h :: h in xs ==> h.FileEnd() <= |source|
    ensures CopiesFit(xs, |source|, LastEnd(xs)) && InFile(multiset(xs), source)
    ensures CopyAll(xs, source, Zeros(LastEnd(xs))) == Image(multiset(xs), source, Extent(xs))
  {
    hide ListDataVerdict, ListCodeVerdict, Kept, CopyAll, Image, Extent, CopiesFit, LastEnd;
    AcceptedIsOrdered(xs);
    LastEndIsExtent(xs);
    NothingWrapsStaysInside(xs, |source|);
    CopiesFitExactly(xs, |source|, LastEnd(xs));
    OrderedIsAllApart(xs);
    CopyAllIsImage(xs, source, Zeros(LastEnd(xs)));
  }

  lemma NothingWrapsStaysInside(xs: Headers, fileSize: nat)
    requires NoneButLastWraps(xs) && !LastWraps(xs) && fileSize < TWO_64
    requires forall h :: h in xs ==> h.FileEnd() <= fileSize
    ensures StaysInside(xs, LastEnd(xs)) && forall h :: h in xs ==> h.SourceEnd() <= fileSize
  {
    forall h | h in xs
      ensures !h.Wraps() && h.SourceEnd() <= fileSize
    {
      EndIsExact(h);
      var k :| 0 <= k < |xs| && xs[k] == h;
    }
  }

  // ----- files whose sums do not wrap -----

  /** No sum that the loader computes for a segment wraps: the source ends, the data segments' destination ends, and,
      for a file of 2^48 bytes or more, the code segments' destination ends. */
  ghost predicate NoSegmentWraps(table: Headers, fileSize: nat) {
    && NoSourceWraps(table)
    && forall h :: h in table && Kept(h) && (!Executable(h) || fileSize >= 0x1_0000_0000_0000) ==> !h.Wraps()
  }

  /** Then no check is misled, whatever arrangement sorting left. */
  lemma NothingMisleads(table: Headers, data: Headers, code: Headers, fileSize: nat, space: nat)
    requires Arranged(table, data, code) && NoSegmentWraps(table, fileSize)
    requires |table| < 0x1_0000 && fileSize < TWO_64
    ensures !Misled(table, data, code, fileSize, space)
  {
    hide ListDataVerdict, ListCodeVerdict, Select, Kept, Executable, NoneButLastWraps, LastWraps, LastEnd;
    ArrangedMembers(table, data, code);
    NoneWrapsFront(data);
    if EndsInFile(table, fileSize) && ListCodeVerdict(code).None? {
      FileBounds(table, fileSize);
      if fileSize < 0x1_0000_0000_0000 {
        SelectSize(table, true);
        SameLength(code, Select(table, true));
        SmallFileCode(code, fileSize);
      }
      NoneWrapsFront(code);
    }
  }
}
