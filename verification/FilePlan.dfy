/** Whole files: the plan for the bytes of a file, what the loader as coded does with them, and what follows from a
    file for its images and runs. */
module FilePlans {
  import opened Bits
  import opened Memory
  import opened Segments
  import opened Images
  import opened Program
  import opened Machine
  import opened Runs
  import opened Layout
  import opened CodedPlans
  import opened ElfFiles

  /** What loading the file is to do, given the free part of guest memory. No plan exists for a table outside the
      file. */
  ghost function FilePlan(source: File, free: Span): Plan {
    if HeaderVerdict(source).Some? then Reject(HeaderVerdict(source).value)
    else if !TableInFile(source) then Undefined
    else PlanFor(source, TableOf(source), free)
  }

  /** What loading the file does, for the sorted lists that it comes to. */
  ghost function CodedFilePlan(source: File, data: Headers, code: Headers, free: Span): Plan {
    if HeaderVerdict(source).Some? then Reject(HeaderVerdict(source).value)
    else if !TableInFile(source) then Undefined
    else CodedPlan(source, TableOf(source), data, code, free)
  }

  /** All program headers can be read and pass the check of the file bounds. */
  ghost predicate Readable(source: File) {
    HeaderVerdict(source).None? && TableInFile(source) && EndsInFile(TableOf(source), |source|)
  }

  /** The lists, if the loader comes to them, are sorted arrangements of the file's segments. */
  ghost predicate ArrangedFrom(source: File, data: Headers, code: Headers) {
    Readable(source) ==> Arranged(TableOf(source), data, code)
  }

  // ----- memory safety of loading -----

  /** The header is accepted and then the table's bound wraps; or every check accepts, and the data does not stay
      inside the free memory or the code, if a vector can hold it, inside its own. */
  ghost predicate Escapes(source: File, data: Headers, code: Headers, free: Span) {
    && HeaderVerdict(source).None?
    && (TableWraps(source)
        || (TableInFile(source)
            && Passes(TableOf(source), data, code, |source|, |free|)
            && (!StaysInside(data, |free|) || (LastEnd(code) < OBJECT_LIMIT && !StaysInside(code, LastEnd(code))))))
  }

  /** Loading accesses bytes outside the file or the memory exactly when the headers say so. */
  lemma EscapesExactly(source: File, data: Headers, code: Headers, free: Span)
    requires ArrangedFrom(source, data, code)
    ensures CodedFilePlan(source, data, code, free).Undefined? <==> Escapes(source, data, code, free)
  {
    hide HeaderVerdict, TableOf, TableInFile, TableWraps, Arranged, StaysInside, ListDataVerdict, ListCodeVerdict,
      CodedProgram, CodeEscapes, CopyAll, CopiesFit, EndsInFile, LastEnd;
    if HeaderVerdict(source).None? {
      TableBoundExactly(source);
      if Readable(source) {
        UndefinedExactly(source, TableOf(source), data, code, free);
      }
    }
  }

  // ----- agreement with the plan -----

  /** The loader follows the file's plan exactly when no wrapped sum misleads a check. */
  lemma FileFollowsPlanExactly(source: File, data: Headers, code: Headers, free: Span)
    requires ArrangedFrom(source, data, code)
    ensures CodedFilePlan(source, data, code, free) == FilePlan(source, free) <==>
      !(HeaderVerdict(source).None? && TableInFile(source) && Misled(TableOf(source), data, code, |source|, |free|))
  {
    hide HeaderVerdict, TableOf, TableInFile, Arranged, MisledByEnds, ListDataVerdict, ListCodeVerdict, AllInFile,
      CodedProgram, CodeEscapes, Decoded, CopyAll, CopiesFit, EndsInFile, NoSourceWraps, LastEnd, DataVerdict,
      CodeVerdict, Image, Extent, Select;
    if Readable(source) {
      FollowsPlanExactly(source, TableOf(source), data, code, free);
    } else if HeaderVerdict(source).None? && TableInFile(source) {
      FileBounds(TableOf(source), |source|);
    }
  }

  /** No sum that the loader computes for the file wraps. The destination ends of code segments need no such premise
      for a file below 2^48 bytes. */
  ghost predicate NothingWraps(source: File) {
    !TableWraps(source) && (TableInFile(source) ==> NoSegmentWraps(TableOf(source), |source|))
  }

  /** Then the loader follows the plan, and accesses nothing outside. */
  lemma UnwrappedFollowsPlan(source: File, data: Headers, code: Headers, free: Span)
    requires ArrangedFrom(source, data, code) && NothingWraps(source)
    ensures CodedFilePlan(source, data, code, free) == FilePlan(source, free)
    ensures !FilePlan(source, free).Undefined?
  {
    hide HeaderVerdict, TableOf, TableInFile, TableWraps, Arranged, MisledByEnds, NoSegmentWraps, CodedFilePlan,
      DataVerdict, CodeVerdict, Image, Extent, Decoded, AllInFile, Select;
    FileFollowsPlanExactly(source, data, code, free);
    if HeaderVerdict(source).None? {
      TableBoundExactly(source);
      if Readable(source) {
        TableSize(source);
        NothingMisleads(TableOf(source), data, code, |source|, |free|);
      }
    }
  }

  // ----- what a file's plan promises -----

  /** Two files load alike when their program header tables are permutations of each other and they hold the same
      bytes for every loaded segment, whatever arrangements sorting left of either. */
  lemma FilesLoadAlike(source: File, other: File, data: Headers, code: Headers, data': Headers, code': Headers,
                       free: Span)
    requires ArrangedFrom(source, data, code) && ArrangedFrom(other, data', code')
    requires HeaderVerdict(source).None? && HeaderVerdict(other).None? && NothingWraps(source)
    requires TableInFile(source) && TableInFile(other) && multiset(TableOf(source)) == multiset(TableOf(other))
    requires SameContents(source, other, TableOf(source))
    ensures CodedFilePlan(source, data, code, free) == CodedFilePlan(other, data', code', free)
  {
    hide HeaderVerdict, TableOf, TableInFile, ArrangedFrom, CodedFilePlan, PlanFor;
    NothingWrapsAlike(source, other);
    UnwrappedFollowsPlan(source, data, code, free);
    UnwrappedFollowsPlan(other, data', code', free);
    HeaderOrderIrrelevant(source, other, TableOf(source), TableOf(other), free);
  }

  lemma NothingWrapsAlike(source: File, other: File)
    requires HeaderVerdict(other).None? && NothingWraps(source) && |source| == |other|
    requires TableInFile(source) && TableInFile(other) && multiset(TableOf(source)) == multiset(TableOf(other))
    ensures NothingWraps(other)
  {
    hide HeaderVerdict, TableOf, TableWraps, TableInFile, Kept, Executable;
    TableBoundExactly(other);
    assert forall h :: h in TableOf(source) <==> h in multiset(TableOf(source));
    assert forall h :: h in TableOf(other) <==> h in multiset(TableOf(other));
  }

  /** Guest memory after loading into a fresh emulator, byte for byte and over its whole length: the file's byte
      wherever a data segment has one, zero at every other address. */
  lemma FreshMemoryIsExact(source: File, capacity: Word64, a: nat)
    requires FilePlan(source, Zeros(capacity)).Map? && a < capacity
    ensures var data, memory := Select(TableOf(source), false), FilePlan(source, Zeros(capacity)).memory;
      && |memory| == capacity
      && (forall h :: h in data && h.Fills(a) ==> h.FileEnd() <= |source| && memory[a] == FileByte(h, source, a))
      && ((forall h :: h in data ==> !h.Fills(a)) ==> memory[a] == 0)
  {
    hide HeaderVerdict, TableOf, TableInFile, PlanFor, Select;
    DataImageIsExact(source, TableOf(source), Zeros(capacity), a);
  }

  /** Running the program that the plan sets, if any, from the state leaves the program counter even and x0 zero, with
      every register index below 32. */
  ghost predicate RunIsSound(plan: Plan, s: State, budget: nat) {
    plan.Map? && plan.program.Success? ==>
      && AllWellFormed(plan.program.value) && RegistersExist(plan.program.value)
      && Sound(Run(plan.program.value, s, budget).state)
  }

  /** From the file to the runs: whatever program the loader as coded sets, wrapped sums or not, so it is from every
      state that is itself sound, a fresh thread's among them. */
  lemma FileRunsAreSound(source: File, data: Headers, code: Headers, free: Span, s: State,
                         budget: nat)
    requires Sound(s)
    ensures RunIsSound(CodedFilePlan(source, data, code, free), s, budget)
    ensures RunIsSound(FilePlan(source, free), s, budget)
    ensures Sound(FRESH)
  {
    hide HeaderVerdict, TableOf, TableInFile, Decoded, CopyAll, CopiesFit, EndsInFile, LastEnd,
      ListDataVerdict, ListCodeVerdict, DataVerdict, CodeVerdict, Image, Extent, Select, AllInFile, RunIsSound;
    if CodedFilePlan(source, data, code, free).Map? {
      var plan := CodedFilePlan(source, data, code, free);
      if plan.program.Success? {
        DecodedPlanIsSound(CopyAll(code, source, Zeros(LastEnd(code))), plan, s, budget);
      }
    }
    if FilePlan(source, free).Map? {
      var plan, table := FilePlan(source, free), TableOf(source);
      PlanMaps(source, table, free);
      if plan.program.Success? {
        DecodedPlanIsSound(Image(multiset(Select(table, true)), source, Extent(Select(table, true))), plan, s, budget);
      }
    }
    NoProgramIsSound(CodedFilePlan(source, data, code, free), s, budget);
    NoProgramIsSound(FilePlan(source, free), s, budget);
  }

  lemma NoProgramIsSound(plan: Plan, s: State, budget: nat)
    ensures !(plan.Map? && plan.program.Success?) ==> RunIsSound(plan, s, budget)
  {
  }

  lemma DecodedPlanIsSound(bytes: seq<Byte>, plan: Plan, s: State, budget: nat)
    requires plan.Map? && plan.program.Success? && plan.program == Decoded(bytes) && Sound(s)
    ensures RunIsSound(plan, s, budget)
  {
    hide AllWellFormed, RegistersExist, Sound, Run, DecodeProgram;
    DecodedIsWellFormed(bytes);
    RunKeepsSound(plan.program.value, s, budget);
  }
}
