/** Memory images (src/riscv/elf.cpp:206-255): what copying the segments one after the other leaves in memory. */
module Images {
  import opened Bits
  import opened Memory
  import opened Segments

  predicate Untruncated(h: SegmentHeader) {
    h.sourceSize <= h.destinationSize
  }

  ghost predicate InFile(m: multiset<SegmentHeader>, source: seq<Byte>) {
    forall h :: h in m ==> h.FileEnd() <= |source|
  }

  /** The file's byte for an address that the segment fills. */
  function FileByte(h: SegmentHeader, source: seq<Byte>, a: nat): Byte
    requires h.FileEnd() <= |source| && h.Fills(a)
  {
    source[h.sourceStart + (a - h.destinationStart)]
  }

  ghost function ImageByte(m: multiset<SegmentHeader>, source: seq<Byte>, a: nat): Byte
    requires InFile(m, source)
  {
    if exists h :: h in m && h.Fills(a) then
      var h :| h in m && h.Fills(a);
      FileByte(h, source, a)
    else
      0
  }

  /** The first `n` bytes of memory that the segments describe: file bytes where a segment has them, zero elsewhere. */
  ghost function Image(m: multiset<SegmentHeader>, source: seq<Byte>, n: nat): (image: seq<Byte>)
    requires InFile(m, source)
    ensures |image| == n
  {
    seq(n, a requires 0 <= a < n => ImageByte(m, source, a))
  }

  /** Of disjoint segments at most one fills an address. */
  lemma OneFiller(m: multiset<SegmentHeader>, g: SegmentHeader, h: SegmentHeader, a: nat)
    requires AllApart(m) && g in m && h in m && Untruncated(g) && Untruncated(h) && g.Fills(a) && h.Fills(a)
    ensures g == h && m[g] == 1
  {
    assert g != h || m[g] > 1 ==> Apart(g, h);
  }

  /** The image, byte for byte. */
  lemma ImageBytes(m: multiset<SegmentHeader>, source: seq<Byte>, n: nat, a: nat)
    requires InFile(m, source) && AllApart(m) && (forall h :: h in m ==> Untruncated(h)) && a < n
    ensures forall h :: h in m && h.Fills(a) ==> m[h] == 1 && Image(m, source, n)[a] == FileByte(h, source, a)
    ensures (forall h :: h in m ==> !h.Fills(a)) ==> Image(m, source, n)[a] == 0
  {
    forall h | h in m && h.Fills(a)
      ensures m[h] == 1 && Image(m, source, n)[a] == FileByte(h, source, a)
    {
      var g :| g in m && g.Fills(a) && ImageByte(m, source, a) == FileByte(g, source, a);
      OneFiller(m, g, h, a);
    }
  }

  // ----- copying -----

  predicate CopyFits(h: SegmentHeader, sourceLength: nat, length: nat) {
    h.FileEnd() <= sourceLength && h.destinationStart + h.sourceSize <= length
  }

  predicate CopiesFit(xs: Headers, sourceLength: nat, length: nat) {
    forall h :: h in xs ==> CopyFits(h, sourceLength, length)
  }

  /** The condition, on the headers alone, for every copy to stay inside the file and inside `length` bytes. */
  ghost predicate StaysInside(xs: Headers, length: nat) {
    forall h :: h in xs ==>
      && !h.SourceWraps()
      && (h.Wraps() || LastWraps(xs) ==> h.destinationStart + h.sourceSize <= length)
  }

  /** Where the copies go, with the exact condition, for every sorted list that passed the file bound check and the
      check of neighbours as they are coded, and for any memory that holds the bytes up to the last end. With the last
      end for the length, this says when the copies stay in the block that is allocated for them. */
  lemma CopiesFitExactly(xs: Headers, fileSize: nat, length: nat)
    requires fileSize < TWO_64 && Sorted(xs) && NeighboursApart(xs) && LastEnd(xs) <= length
    requires forall h :: h in xs ==> Untruncated(h) && h.SourceEnd() <= fileSize
    ensures CopiesFit(xs, fileSize, length) <==> StaysInside(xs, length)
  {
    hide LastEnd, NeighboursApart;
    forall h | h in xs
      ensures CopyFits(h, fileSize, length) <==>
        !h.SourceWraps() && (h.Wraps() || LastWraps(xs) ==> h.destinationStart + h.sourceSize <= length)
    {
      EndIsExact(h);
      var k :| 0 <= k < |xs| && xs[k] == h;
      if !LastWraps(xs) {
        EndsBeforeLast(xs, k);
      }
    }
  }

  lemma EndsBeforeLast(xs: Headers, k: nat)
    requires Sorted(xs) && NeighboursApart(xs) && k < |xs| && !LastWraps(xs)
    ensures !xs[k].Wraps() ==> xs[k].End() <= LastEnd(xs)
  {
    EndIsExact(xs[k]);
    EndIsExact(xs[|xs| - 1]);
    if k < |xs| - 1 {
      assert xs[k + 1].destinationStart <= xs[|xs| - 1].destinationStart;
    }
  }

  /** For segments as long in memory as in the file, which code segments are, the condition is that nothing wraps. */
  lemma UnresizedStaysInside(xs: Headers)
    requires forall h :: h in xs ==> h.destinationSize == h.sourceSize
    ensures StaysInside(xs, LastEnd(xs)) <==> NoneWraps(xs) && forall h :: h in xs ==> !h.SourceWraps()
  {
    if StaysInside(xs, LastEnd(xs)) {
      forall h | h in xs
        ensures !h.Wraps()
      {
        assert h.Wraps() ==> h.End() <= LastEnd(xs);
      }
    }
    if NoneWraps(xs) && xs != [] {
      assert xs[|xs| - 1] in xs;
    }
  }

  function CopyOne(h: SegmentHeader, source: seq<Byte>, memory: seq<Byte>): (r: seq<Byte>)
    requires CopyFits(h, |source|, |memory|)
    ensures |r| == |memory|
  {
    Paste(memory, h.destinationStart, source[h.sourceStart..h.FileEnd()])
  }

  /** Memory after copying the segments in list order. */
  function CopyAll(xs: Headers, source: seq<Byte>, memory: seq<Byte>): (r: seq<Byte>)
    requires CopiesFit(xs, |source|, |memory|)
    ensures |r| == |memory|
  {
    if xs == [] then memory
    else CopyOne(xs[|xs| - 1], source, CopyAll(xs[..|xs| - 1], source, memory))
  }

  lemma CopyOneByte(h: SegmentHeader, source: seq<Byte>, memory: seq<Byte>, a: nat)
    requires CopyFits(h, |source|, |memory|) && a < |memory|
    ensures CopyOne(h, source, memory)[a] == if h.Fills(a) then FileByte(h, source, a) else memory[a]
  {
  }

  /** Copying disjoint segments, in any order, leaves the file's byte wherever a segment fills an address and
      does not touch any other. */
  lemma {:induction false} CopyAllByte(xs: Headers, source: seq<Byte>, memory: seq<Byte>, a: nat)
    requires CopiesFit(xs, |source|, |memory|) && a < |memory|
    requires AllApart(multiset(xs)) && forall h :: h in xs ==> Untruncated(h)
    ensures forall h :: h in xs && h.Fills(a) ==> CopyAll(xs, source, memory)[a] == FileByte(h, source, a)
    ensures (forall h :: h in xs ==> !h.Fills(a)) ==> CopyAll(xs, source, memory)[a] == memory[a]
  {
    if xs != [] {
      hide CopyOne, AllApart, FileByte;
      var front, last := xs[..|xs| - 1], xs[|xs| - 1];
      FrontApart(xs);
      CopyAllByte(front, source, memory, a);
      CopyOneByte(last, source, CopyAll(front, source, memory), a);
      assert last in xs && last in multiset(xs);
      if last.Fills(a) {
        forall h | h in xs && h.Fills(a)
          ensures h == last
        {
          assert h in multiset(xs);
          OneFiller(multiset(xs), h, last, a);
        }
      } else {
        forall h | h in xs && h.Fills(a)
          ensures h in front
        {
          assert xs == front + [last];
        }
      }
    }
  }

  lemma FrontApart(xs: Headers)
    requires xs != [] && AllApart(multiset(xs))
    ensures AllApart(multiset(xs[..|xs| - 1]))
  {
    assert xs == xs[..|xs| - 1] + [xs[|xs| - 1]];
    assert multiset(xs) == multiset(xs[..|xs| - 1]) + multiset{xs[|xs| - 1]};
  }

  /** Copying disjoint segments into zeroed memory gives the image, whatever order the copies run in. */
  lemma CopyAllIsImage(xs: Headers, source: seq<Byte>, memory: seq<Byte>)
    requires CopiesFit(xs, |source|, |memory|) && memory == Zeros(|memory|)
    requires AllApart(multiset(xs)) && forall h :: h in xs ==> Untruncated(h)
    ensures InFile(multiset(xs), source)
    ensures CopyAll(xs, source, memory) == Image(multiset(xs), source, |memory|)
  {
    var m := multiset(xs);
    assert forall h :: h in m <==> h in xs;
    forall a | 0 <= a < |memory|
      ensures CopyAll(xs, source, memory)[a] == Image(m, source, |memory|)[a]
    {
      CopyAllByte(xs, source, memory, a);
      ImageBytes(m, source, |memory|, a);
    }
  }

  /** `std::memcpy` from the file. */
  method CopyMemory(destination: array<Byte>, p: nat, source: seq<Byte>, q: nat, size: nat)
    requires p + size <= destination.Length && q + size <= |source|
    modifies destination
    ensures destination[..] == Paste(old(destination[..]), p, source[q..q + size])
  {
    forall k | 0 <= k < size {
      destination[p + k] := source[q + k];
    }
  }

  /** A destination array after the segments were copied into the `length` bytes from `base` on. */
  function Copied(xs: Headers, source: seq<Byte>, memory: seq<Byte>, base: nat, length: nat): (r: seq<Byte>)
    requires base + length <= |memory| && CopiesFit(xs, |source|, length)
    ensures |r| == |memory|
  {
    Paste(memory, base, CopyAll(xs, source, memory[base..base + length]))
  }

  /** Copies that stay in the first part of memory leave the rest alone. */
  lemma {:induction false} CopyAllInFront(xs: Headers, source: seq<Byte>, front: seq<Byte>, rest: seq<Byte>)
    requires CopiesFit(xs, |source|, |front|)
    ensures CopiesFit(xs, |source|, |front + rest|)
    ensures CopyAll(xs, source, front + rest) == CopyAll(xs, source, front) + rest
  {
    if xs != [] {
      CopyAllInFront(xs[..|xs| - 1], source, front, rest);
      assert xs[|xs| - 1] in xs;
      PasteInFront(CopyAll(xs[..|xs| - 1], source, front), rest, xs[|xs| - 1], source);
      hide CopyOne;
    }
  }

  lemma PasteInFront(front: seq<Byte>, rest: seq<Byte>, h: SegmentHeader, source: seq<Byte>)
    requires CopyFits(h, |source|, |front|)
    ensures CopyOne(h, source, front + rest) == CopyOne(h, source, front) + rest
  {
  }

  /** Memory from some address on after its first `total` bytes were zeroed. */
  function Zeroed(total: nat, free: seq<Byte>): (r: seq<Byte>)
    requires total <= |free|
    ensures |r| == |free|
  {
    Zeros(total) + free[total..]
  }

  /** Copying into the memory from `base` on after a block of `total` bytes was zeroed there. */
  lemma CopiedIntoZeroed(xs: Headers, source: seq<Byte>, memory: seq<Byte>, base: nat, total: nat)
    requires base + total <= |memory| && CopiesFit(xs, |source|, |memory| - base)
    ensures Copied(xs, source, Paste(memory, base, Zeros(total)), base, |memory| - base) ==
      memory[..base] + CopyAll(xs, source, Zeroed(total, memory[base..]))
  {
    hide CopyAll, CopiesFit;
    assert Paste(memory, base, Zeros(total))[base..] == Zeroed(total, memory[base..]);
    assert Paste(memory, base, Zeros(total))[..base] == memory[..base];
    assert Paste(memory, base, Zeros(total))[base..|memory|] == Zeroed(total, memory[base..]);
  }

  lemma CopiedNothing(source: seq<Byte>, memory: seq<Byte>, base: nat, length: nat)
    requires base + length <= |memory|
    ensures Copied([], source, memory, base, length) == memory
  {
  }

  lemma CopiedOneMore(xs: Headers, i: nat, source: seq<Byte>, memory: seq<Byte>, base: nat, length: nat)
    requires base + length <= |memory| && i < |xs|
    requires CopiesFit(xs[..i], |source|, length) && CopyFits(xs[i], |source|, length)
    ensures CopiesFit(xs[..i + 1], |source|, length)
    ensures Copied(xs[..i + 1], source, memory, base, length) ==
      Paste(Copied(xs[..i], source, memory, base, length), base + xs[i].destinationStart,
        source[xs[i].sourceStart..xs[i].FileEnd()])
  {
    assert xs[..i + 1] == xs[..i] + [xs[i]] && xs[..i + 1][..i] == xs[..i];
    var bytes := source[xs[i].sourceStart..xs[i].FileEnd()];
    PasteInside(memory, base, CopyAll(xs[..i], source, memory[base..base + length]), xs[i].destinationStart, bytes);
    hide Paste;
  }

  /** Copies into the `length` bytes from `base` on. A copy that does not fit, which C++ leaves undefined, ends the
      method with false. */
  method CopySegments(headers: Headers, source: Span, destination: array<Byte>, base: nat, length: nat)
    returns (ok: bool)
    requires base + length <= destination.Length
    modifies destination
    ensures ok <==> CopiesFit(headers, |source|, length)
    ensures ok ==> destination[..] == Copied(headers, source, old(destination[..]), base, length)
  {
    hide Paste, Copied;
    ghost var before := destination[..];
    var i := 0;
    assert headers[..0] == [];
    CopiedNothing(source, before, base, length);
    while i < |headers|
      invariant 0 <= i <= |headers| && CopiesFit(headers[..i], |source|, length)
      invariant destination[..] == Copied(headers[..i], source, before, base, length)
    {
      var header := headers[i];
      if !CopyFits(header, |source|, length) {
        assert header in headers;
        return false;
      }
      CopyMemory(destination, base + header.destinationStart, source, header.sourceStart, header.sourceSize);
      CopiedOneMore(headers, i, source, before, base, length);
      i := i + 1;
    }
    assert headers[..i] == headers;
    ok := true;
  }

  lemma PasteInside(memory: seq<Byte>, base: nat, window: seq<Byte>, p: nat, bytes: seq<Byte>)
    requires base + |window| <= |memory| && p + |bytes| <= |window|
    ensures Paste(Paste(memory, base, window), base + p, bytes) == Paste(memory, base, Paste(window, p, bytes))
  {
  }
}
