/** Loadable segments and their layout (src/riscv/elf.cpp:88-255): what the loader's checks of neighbours in a
    sorted list say about all segments together, and the memory images that copying produces.

    `DestinationEnd` and `SourceEnd` are the wrapping 64-bit sums of the source; `End` and `FileEnd` are the
    mathematical ones. */
module Segments {
  import opened Bits

  datatype SegmentHeader = SegmentHeader(
    kind: Word32,
    flags: Word32,
    sourceStart: Word64,
    destinationStart: Word64,
    sourceSize: Word64,
    destinationSize: Word64)
  {
    function SourceEnd(): Word64 { Wrap64(sourceStart + sourceSize) }

    function DestinationEnd(): Word64 { Wrap64(destinationStart + destinationSize) }

    function FileEnd(): nat { sourceStart + sourceSize }

    function End(): nat { destinationStart + destinationSize }

    predicate Wraps() { End() >= TWO_64 }

    predicate SourceWraps() { FileEnd() >= TWO_64 }

    /** The segment's memory contains the address. */
    predicate Covers(a: nat) { destinationStart <= a < End() }

    /** The part of the segment that comes from the file contains the address. */
    predicate Fills(a: nat) { destinationStart <= a < destinationStart + sourceSize }
  }

  lemma EndIsExact(h: SegmentHeader)
    ensures !h.Wraps() ==> h.DestinationEnd() == h.End()
    ensures h.Wraps() ==> h.DestinationEnd() == h.End() - TWO_64
    ensures !h.SourceWraps() ==> h.SourceEnd() == h.FileEnd()
  {
    if h.Wraps() {
      DivModUnique(h.End(), TWO_64, 1, h.End() - TWO_64);
    }
  }

  type Headers = seq<SegmentHeader>

  predicate Sorted(xs: Headers) {
    forall i, j :: 0 <= i < j < |xs| ==> xs[i].destinationStart <= xs[j].destinationStart
  }

  predicate NoneEmpty(xs: Headers) {
    forall h :: h in xs ==> h.destinationSize >= 1
  }

  predicate NoneWraps(xs: Headers) {
    forall h :: h in xs ==> !h.Wraps()
  }

  predicate NoneButLastWraps(xs: Headers) {
    forall k :: 0 <= k < |xs| - 1 ==> !xs[k].Wraps()
  }

  predicate LastWraps(xs: Headers) {
    xs != [] && xs[|xs| - 1].Wraps()
  }

  /** The end of the last segment as coded, which the loader takes for the size of the memory. */
  function LastEnd(xs: Headers): Word64 {
    if xs == [] then 0 else xs[|xs| - 1].DestinationEnd()
  }

  // ----- the checks as coded, on neighbours -----

  /** No segment ends after its successor starts. */
  predicate NeighboursApart(xs: Headers) {
    forall k :: 0 <= k < |xs| - 1 ==> xs[k].DestinationEnd() <= xs[k + 1].destinationStart
  }

  /** Every segment ends where its successor starts, and the first one starts at 0. */
  predicate NeighboursJoin(xs: Headers) {
    xs != [] && xs[0].destinationStart == 0
    && forall k :: 0 <= k < |xs| - 1 ==> xs[k].DestinationEnd() == xs[k + 1].destinationStart
  }

  // ----- what they are to mean, for segments in any order -----

  predicate Apart(a: SegmentHeader, b: SegmentHeader) {
    a.End() <= b.destinationStart || b.End() <= a.destinationStart
  }

  /** All segments are pairwise disjoint; a segment that occurs twice has to be disjoint from itself. */
  ghost predicate AllApart(m: multiset<SegmentHeader>) {
    forall a, b :: a in m && b in m && (a != b || m[a] > 1) ==> Apart(a, b)
  }

  /** The segments partition the addresses from 0 up to `n`. */
  ghost predicate Tiles(m: multiset<SegmentHeader>, n: nat) {
    && AllApart(m)
    && (forall h :: h in m ==> h.End() <= n)
    && forall a: nat :: a < n ==> CoveredBy(m, a)
  }

  ghost predicate CoveredBy(m: multiset<SegmentHeader>, a: nat) {
    exists h :: h in m && h.Covers(a)
  }

  /** Each segment ends before every later one starts. */
  predicate Ordered(xs: Headers) {
    forall i, j :: 0 <= i < j < |xs| ==> xs[i].End() <= xs[j].destinationStart
  }

  // ----- local checks give global facts -----

  lemma {:induction false} NeighboursOrder(xs: Headers, i: nat, j: nat)
    requires i < j < |xs|
    requires forall k :: 0 <= k < |xs| - 1 ==> xs[k].End() <= xs[k + 1].destinationStart
    ensures xs[i].End() <= xs[j].destinationStart
  {
    if i + 1 < j {
      NeighboursOrder(xs, i, j - 1);
      assert xs[j - 1].End() <= xs[j - 1 + 1].destinationStart;
    }
  }

  lemma TwoOccurrences(xs: Headers, i: nat, j: nat)
    requires i < j < |xs| && xs[i] == xs[j]
    ensures multiset(xs)[xs[i]] > 1
  {
    assert xs == xs[..i] + [xs[i]] + xs[i + 1..j] + [xs[j]] + xs[j + 1..];
  }

  lemma OccurrencesOf(xs: Headers, h: SegmentHeader) returns (i: nat, j: nat)
    requires multiset(xs)[h] > 1
    ensures i < j < |xs| && xs[i] == h && xs[j] == h
  {
    assert h in xs;
    i :| 0 <= i < |xs| && xs[i] == h;
    var rest := xs[..i] + xs[i + 1..];
    assert xs == xs[..i] + [xs[i]] + xs[i + 1..];
    assert h in multiset(rest);
    var k :| 0 <= k < |rest| && rest[k] == h;
    j := if k < i then k else k + 1;
    if j < i {
      i, j := j, i;
    }
  }

  lemma OrderedIsAllApart(xs: Headers)
    requires Sorted(xs) && NoneEmpty(xs)
    ensures Ordered(xs) <==> AllApart(multiset(xs))
  {
    if Ordered(xs) {
      forall a, b | a in multiset(xs) && b in multiset(xs) && (a != b || multiset(xs)[a] > 1)
        ensures Apart(a, b)
      {
        if a == b {
          var i, j := OccurrencesOf(xs, a);
        } else {
          var i :| 0 <= i < |xs| && xs[i] == a;
          var j :| 0 <= j < |xs| && xs[j] == b;
        }
      }
    }
    if AllApart(multiset(xs)) {
      forall i, j | 0 <= i < j < |xs|
        ensures xs[i].End() <= xs[j].destinationStart
      {
        assert xs[i] in multiset(xs) && xs[j] in multiset(xs);
        if xs[i] == xs[j] {
          TwoOccurrences(xs, i, j);
        }
        assert Apart(xs[i], xs[j]);
      }
    }
  }

  /** The check of neighbours, with its exact condition: sorted nonempty segments are pairwise disjoint if and only
      if the check accepts them and no segment but the last wraps. */
  lemma AllApartExactly(xs: Headers)
    requires Sorted(xs) && NoneEmpty(xs)
    ensures AllApart(multiset(xs)) <==> NeighboursApart(xs) && NoneButLastWraps(xs)
  {
    OrderedIsAllApart(xs);
    forall h | h in xs { EndIsExact(h); }
    if NeighboursApart(xs) && NoneButLastWraps(xs) {
      forall i, j | 0 <= i < j < |xs|
        ensures xs[i].End() <= xs[j].destinationStart
      {
        NeighboursOrder(xs, i, j);
      }
    }
    if Ordered(xs) {
      forall k | 0 <= k < |xs| - 1
        ensures !xs[k].Wraps() && xs[k].DestinationEnd() <= xs[k + 1].destinationStart
      {
        assert xs[k].End() <= xs[k + 1].destinationStart;
      }
    }
  }

  /** A list the check accepts although its two segments overlap: the first one's end wraps around to 8. */
  lemma WrappedEndIsAccepted()
    ensures var a, b := SegmentHeader(1, 0, 0, 16, 0, 0xffff_ffff_ffff_fff8), SegmentHeader(1, 0, 0, 32, 0, 8);
      Sorted([a, b]) && NoneEmpty([a, b]) && NeighboursApart([a, b]) && !AllApart(multiset([a, b]))
  {
    var a, b := SegmentHeader(1, 0, 0, 16, 0, 0xffff_ffff_ffff_fff8), SegmentHeader(1, 0, 0, 32, 0, 8);
    EndIsExact(a);
    assert a in multiset([a, b]) && b in multiset([a, b]) && !Apart(a, b);
  }

  /** The end of the last segment is the largest end. */
  lemma LastEndIsLargest(xs: Headers)
    requires xs != [] && NoneEmpty(xs) && Ordered(xs)
    ensures forall h :: h in xs ==> h.End() <= xs[|xs| - 1].End()
  {
    forall h | h in xs
      ensures h.End() <= xs[|xs| - 1].End()
    {
      var i :| 0 <= i < |xs| && xs[i] == h;
    }
  }

  // ----- code segments tile -----

  /** The contiguity check, with its exact condition: sorted nonempty segments partition the addresses from 0 up to
      some size, which is then the end of the last one, if and only if the check accepts them and no segment but the
      last wraps. */
  lemma NeighboursJoinExactly(xs: Headers)
    requires Sorted(xs) && NoneEmpty(xs)
    ensures NeighboursJoin(xs) && NoneButLastWraps(xs) <==> exists n: nat :: n >= 1 && Tiles(multiset(xs), n)
    ensures NeighboursJoin(xs) && NoneButLastWraps(xs) ==> Tiles(multiset(xs), xs[|xs| - 1].End())
  {
    if NeighboursJoin(xs) && NoneButLastWraps(xs) {
      JoinedTiles(xs);
    }
    if n: nat :| n >= 1 && Tiles(multiset(xs), n) {
      TiledJoins(xs, n);
    }
  }

  lemma JoinedTiles(xs: Headers)
    requires Sorted(xs) && NoneEmpty(xs) && NoneButLastWraps(xs) && NeighboursJoin(xs)
    ensures Ordered(xs) && xs[|xs| - 1].End() >= 1 && Tiles(multiset(xs), xs[|xs| - 1].End())
  {
    AllApartExactly(xs);
    OrderedIsAllApart(xs);
    LastEndIsLargest(xs);
    assert xs[|xs| - 1] in xs;
    forall a: nat | a < xs[|xs| - 1].End()
      ensures CoveredBy(multiset(xs), a)
    {
      var k := JoinedCover(xs, a, |xs| - 1);
      assert xs[k] in multiset(xs);
    }
  }

  lemma {:induction false} JoinedCover(xs: Headers, a: nat, j: nat) returns (k: nat)
    requires NoneButLastWraps(xs) && NeighboursJoin(xs) && j < |xs| && a < xs[j].End()
    ensures k < |xs| && xs[k].Covers(a)
  {
    if a >= xs[j].destinationStart {
      k := j;
    } else {
      EndIsExact(xs[j - 1]);
      assert xs[j - 1].DestinationEnd() == xs[j - 1 + 1].destinationStart;
      k := JoinedCover(xs, a, j - 1);
    }
  }

  lemma TiledJoins(xs: Headers, n: nat)
    requires Sorted(xs) && NoneEmpty(xs) && n >= 1 && Tiles(multiset(xs), n)
    ensures NeighboursJoin(xs) && NoneButLastWraps(xs)
  {
    AllApartExactly(xs);
    OrderedIsAllApart(xs);
    assert CoveredBy(multiset(xs), 0);
    ZeroIsCovered(xs);
    forall k | 0 <= k < |xs| - 1
      ensures xs[k].DestinationEnd() == xs[k + 1].destinationStart
    {
      NoGap(xs, n, k);
    }
  }

  lemma NoGap(xs: Headers, n: nat, k: nat)
    requires Sorted(xs) && NoneEmpty(xs) && Ordered(xs) && Tiles(multiset(xs), n) && k + 1 < |xs| && !xs[k].Wraps()
    ensures xs[k].DestinationEnd() == xs[k + 1].destinationStart
  {
    var a := xs[k].End();
    assert xs[k + 1] in xs && xs[k + 1] in multiset(xs);
    EndIsExact(xs[k]);
    GapIsUncovered(xs, k, a);
    assert a < n ==> CoveredBy(multiset(xs), a);
  }

  lemma GapIsUncovered(xs: Headers, k: nat, a: nat)
    requires Sorted(xs) && Ordered(xs) && k + 1 < |xs|
    ensures xs[k].End() <= a < xs[k + 1].destinationStart ==> !CoveredBy(multiset(xs), a)
  {
    if xs[k].End() <= a < xs[k + 1].destinationStart {
      forall h | h in multiset(xs)
        ensures !h.Covers(a)
      {
        assert h in xs;
        var i :| 0 <= i < |xs| && xs[i] == h;
        if i < k {
          assert xs[i].End() <= xs[k].destinationStart;
        }
      }
    }
  }

  // ----- the order of segments -----

  /** Two sorted arrangements of the same segments, if one of them passes the data check, are the same list. */
  lemma {:induction false} OrderedIsUnique(xs: Headers, ys: Headers)
    requires multiset(xs) == multiset(ys) && NoneEmpty(xs) && Ordered(xs) && Ordered(ys)
    ensures xs == ys
  {
    SameLength(xs, ys);
    if xs != [] {
      assert xs[0] in multiset(xs) && ys[0] in multiset(ys);
      FirstIsUnique(xs, ys);
      RestOccurrences(xs);
      RestOccurrences(ys);
      hide Ordered;
      OrderedRest(xs);
      OrderedRest(ys);
      OrderedIsUnique(xs[1..], ys[1..]);
      assert xs == [xs[0]] + xs[1..] && ys == [ys[0]] + ys[1..];
    }
  }

  lemma SameLength(xs: Headers, ys: Headers)
    requires multiset(xs) == multiset(ys)
    ensures |xs| == |ys|
  {
    assert |multiset(xs)| == |xs| && |multiset(ys)| == |ys|;
  }

  lemma RestOccurrences(xs: Headers)
    requires xs != []
    ensures multiset(xs[1..]) == multiset(xs) - multiset{xs[0]}
  {
    assert xs == [xs[0]] + xs[1..];
  }

  lemma OrderedRest(xs: Headers)
    requires xs != [] && Ordered(xs)
    ensures Ordered(xs[1..])
  {
  }

  lemma FirstIsUnique(xs: Headers, ys: Headers)
    requires xs != [] && ys != [] && ys[0] in multiset(xs) && xs[0] in multiset(ys)
    requires NoneEmpty(xs) && Ordered(xs) && Ordered(ys)
    ensures xs[0] == ys[0]
  {
    var i :| 0 <= i < |xs| && xs[i] == ys[0];
    var j :| 0 <= j < |ys| && ys[j] == xs[0];
    assert xs[0] in xs && xs[i] in xs;
  }

  // ----- code size arithmetic -----

  function TotalSize(xs: Headers): nat {
    if xs == [] then 0 else TotalSize(xs[..|xs| - 1]) + xs[|xs| - 1].destinationSize
  }

  /** For a file below 2^48 bytes, an accepted list of code segments, none of whose source ends wraps, has no
      wrapping destination end either. Its total is the sum of the file sizes, at most the number of segments
      times the file size. (A program header table has fewer than 2^16 entries.) */
  lemma {:induction false} CodeSizes(xs: Headers, fileSize: nat)
    requires |xs| < 0x1_0000 && fileSize < 0x1_0000_0000_0000 && NeighboursJoin(xs)
    requires forall h :: h in xs ==> h.destinationSize == h.sourceSize && h.FileEnd() <= fileSize
    ensures NoneWraps(xs)
    ensures xs[|xs| - 1].End() == TotalSize(xs) <= |xs| * fileSize
  {
    var n := |xs| - 1;
    var last, front := xs[n], xs[..n];
    assert last in xs;
    SizeBound(n, fileSize);
    if n == 0 {
      assert TotalSize(front) == 0;
    } else {
      JoinedFront(xs);
      CodeSizes(front, fileSize);
      assert front[n - 1] in front;
      EndIsExact(front[n - 1]);
      assert last.End() == TotalSize(front) + last.destinationSize;
    }
    forall h | h in xs
      ensures !h.Wraps()
    {
      if h !in front {
        assert h == last;
      }
    }
  }

  lemma JoinedFront(xs: Headers)
    requires |xs| > 1 && NeighboursJoin(xs)
    ensures NeighboursJoin(xs[..|xs| - 1])
    ensures xs[|xs| - 2].DestinationEnd() == xs[|xs| - 1].destinationStart
  {
    var k := |xs| - 2;
    assert xs[k].DestinationEnd() == xs[k + 1].destinationStart;
  }

  lemma SizeBound(n: nat, fileSize: nat)
    requires n < 0xffff && fileSize < 0x1_0000_0000_0000
    ensures n * fileSize + fileSize == (n + 1) * fileSize && n * fileSize <= 0xffff * fileSize
  {
    ScaleLess(n, 0xffff, if fileSize == 0 then 1 else fileSize);
  }

  lemma ZeroIsCovered(xs: Headers)
    requires Sorted(xs) && CoveredBy(multiset(xs), 0)
    ensures xs != [] && xs[0].destinationStart == 0
  {
    var first :| first in multiset(xs) && first.Covers(0);
    assert first in xs;
    var i :| 0 <= i < |xs| && xs[i] == first;
  }

  /** For a file below 2^48 bytes the contiguity check accepts exactly the partitions, and then nothing wraps. */
  lemma SmallFileJoinsExactly(xs: Headers, fileSize: nat)
    requires |xs| < 0x1_0000 && fileSize < 0x1_0000_0000_0000 && Sorted(xs) && NoneEmpty(xs)
    requires forall h :: h in xs ==> h.destinationSize == h.sourceSize && h.FileEnd() <= fileSize
    ensures NeighboursJoin(xs) <==> exists n: nat :: n >= 1 && Tiles(multiset(xs), n)
    ensures NeighboursJoin(xs) ==> NoneWraps(xs)
  {
    hide NeighboursJoin, Tiles;
    NeighboursJoinExactly(xs);
    if NeighboursJoin(xs) {
      CodeSizes(xs, fileSize);
    }
  }
}
