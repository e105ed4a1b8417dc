/** The guest memory arena (src/riscv/utils/arena.hpp), with `std::align` given its standard contract.

    `std::align` lowers the free space by the padding only, and nothing subtracts the size of a block, so
    successive blocks share their bytes; no disjointness is claimed. Alignments are powers of two and are
    given by their exponent. */
module Arenas {
  import opened Bits
  import opened Memory
  import opened Results

  /** Where `storage` lies, how big it is, and how much of it counts as free. */
  datatype ArenaState = ArenaState(base: nat, capacity: nat, freeSpace: nat)
  {
    predicate Valid() {
      freeSpace <= capacity
    }

    function FreeOffset(): nat
      requires Valid()
    {
      capacity - freeSpace
    }
  }

  datatype Request = Request(size: nat, exponent: nat)

  predicate Aligned(address: int, alignment: int)
    requires alignment >= 1
  {
    address % alignment == 0
  }

  lemma AlignedMultiple(address: int, alignment: int, q: int)
    requires alignment >= 1 && address == q * alignment
    ensures Aligned(address, alignment)
  {
    DivModUnique(address, alignment, q, 0);
  }

  /** The bytes to skip from an address to the next multiple of an alignment. */
  function Padding(address: nat, alignment: int): nat
    requires alignment >= 1
  {
    (0 - address) % alignment
  }

  lemma PaddingAligns(address: nat, alignment: int)
    requires alignment >= 1
    ensures var padding := Padding(address, alignment);
      padding < alignment && Aligned(address + padding, alignment)
  {
    var q, padding := (0 - address) / alignment, Padding(address, alignment);
    assert 0 - address == alignment * q + padding;
    assert address + padding == (0 - q) * alignment;
    AlignedMultiple(address + padding, alignment, 0 - q);
  }

  /** `std::align` on a pointer given as an offset into storage: the aligned offset and the space left. */
  function Align(s: ArenaState, r: Request, space: nat, offset: nat): Option<(nat, nat)> {
    var padding := Padding(s.base + offset, Pow2(r.exponent));
    if padding + r.size <= space then Some((offset + padding, space - padding)) else None
  }

  /** The offset of the block that `allocateRaw` returns, or nothing if it throws. */
  function Granted(s: ArenaState, r: Request): Option<nat>
    requires s.Valid()
  {
    match Align(s, r, s.freeSpace, s.FreeOffset())
    case Some(aligned) => Some(aligned.0)
    case None => None
  }

  function AfterRequest(s: ArenaState, r: Request): (t: ArenaState)
    requires s.Valid()
    ensures t.Valid()
  {
    match Align(s, r, s.freeSpace, s.FreeOffset())
    case Some(aligned) => s.(freeSpace := aligned.1)
    case None => s
  }

  /** Every block is aligned and inside storage; the free offset is then the block's, and never decreases. */
  lemma BlockIsAligned(s: ArenaState, r: Request)
    requires s.Valid()
    ensures AfterRequest(s, r).FreeOffset() >= s.FreeOffset()
    ensures match Granted(s, r)
      case Some(offset) =>
        && Aligned(s.base + offset, Pow2(r.exponent)) && offset + r.size <= s.capacity
        && AfterRequest(s, r).FreeOffset() == offset
      case None => AfterRequest(s, r) == s
  {
    PaddingAligns(s.base + s.FreeOffset(), Pow2(r.exponent));
  }

  // ----- when a request is granted -----

  /** A block of the request's size at the offset is aligned, and lies in storage from the free offset on. */
  predicate Suits(s: ArenaState, r: Request, offset: nat)
    requires s.freeSpace <= s.capacity
  {
    && s.capacity - s.freeSpace <= offset && offset + r.size <= s.capacity
    && (s.base + offset) % Pow2(r.exponent) == 0
  }

  /** A request is granted if and only if some suitable offset exists, and it is granted the least one. */
  lemma GrantedExactly(s: ArenaState, r: Request)
    requires s.Valid()
    ensures Granted(s, r).Some? <==> exists offset: nat :: Suits(s, r, offset)
    ensures Granted(s, r).Some? ==>
      Suits(s, r, Granted(s, r).value) && forall offset: nat :: Suits(s, r, offset) ==> Granted(s, r).value <= offset
    ensures AfterRequest(s, r) == if Granted(s, r).Some? then s.(freeSpace := s.capacity - Granted(s, r).value) else s
  {
    var alignment, free := Pow2(r.exponent), s.FreeOffset();
    var least := free + Padding(s.base + free, alignment);
    PaddingAligns(s.base + free, alignment);
    forall offset: nat | Suits(s, r, offset)
      ensures least <= offset
    {
      if offset < least {
        AlignedDifference(s.base + offset, least - offset, alignment);
        NoSmallMultiple(least - offset, alignment);
      }
    }
    assert Granted(s, r).Some? ==> Suits(s, r, least);
  }

  // ----- the documented meaning of the free offset -----

  /** The documentation calls the free offset that of the first free byte. After a granted request it is past the
      block, as that would have it, exactly when the block is empty. */
  lemma FreeOffsetIsPastBlockExactly(s: ArenaState, r: Request)
    requires s.Valid() && Granted(s, r).Some?
    ensures AfterRequest(s, r).FreeOffset() >= Granted(s, r).value + r.size <==> r.size == 0
  {
    hide Aligned, Padding;
    BlockIsAligned(s, r);
  }

  /** Two blocks in a row are disjoint exactly when the padding of the second covers the first. */
  lemma BlocksApartExactly(s: ArenaState, r: Request, next: Request)
    requires s.Valid() && Granted(s, r).Some? && Granted(AfterRequest(s, r), next).Some?
    requires r.size >= 1 && next.size >= 1
    ensures var a, b := Granted(s, r).value, Granted(AfterRequest(s, r), next).value;
      a + r.size <= b || b + next.size <= a <==> Padding(s.base + a, Pow2(next.exponent)) >= r.size
  {
    hide Aligned, Padding;
    BlockIsAligned(s, r);
  }

  /** A request that is granted is granted the same block again, however often it is repeated. */
  lemma RepeatedRequest(s: ArenaState, r: Request)
    requires s.Valid() && Granted(s, r).Some?
    ensures Granted(AfterRequest(s, r), r) == Granted(s, r) && AfterRequest(AfterRequest(s, r), r) == AfterRequest(s, r)
  {
    hide Aligned, Padding;
    BlockIsAligned(s, r);
    NoPadding(s.base + Granted(s, r).value, Pow2(r.exponent));
  }

  /** Two 8-byte objects in a fresh arena lie at the same address. */
  lemma TwoObjectsShareABlock()
    ensures var s, r := ArenaState(0, 64, 64), Request(8, 3);
      Granted(s, r) == Some(0) && Granted(AfterRequest(s, r), r) == Some(0)
  {
    var s, r := ArenaState(0, 64, 64), Request(8, 3);
    SmallPow2Values();
    AlignedMultiple(0, 8, 0);
    NoPadding(0, 8);
    RepeatedRequest(s, r);
  }

  // ----- the offset law -----

  function AfterRequests(s: ArenaState, requests: seq<Request>): (t: ArenaState)
    requires s.Valid()
    ensures t.Valid()
  {
    if requests == [] then s
    else AfterRequest(AfterRequests(s, requests[..|requests| - 1]), requests[|requests| - 1])
  }

  /** The exponent of the largest alignment that was granted. */
  function LargestGranted(s: ArenaState, requests: seq<Request>): nat
    requires s.Valid()
  {
    if requests == [] then 0
    else
      var front, last := requests[..|requests| - 1], requests[|requests| - 1];
      var before := LargestGranted(s, front);
      if Granted(AfterRequests(s, front), last).Some? && last.exponent > before then last.exponent else before
  }

  /** `offset` is the least one that brings `base` to a multiple of the alignment. */
  ghost predicate LeastAligned(base: nat, alignment: int, offset: nat)
    requires alignment >= 1
  {
    AlignedAt(base, offset, alignment) && forall o: nat :: AlignedAt(base, o, alignment) ==> offset <= o
  }

  predicate AlignedAt(base: nat, offset: nat, alignment: int)
    requires alignment >= 1
  {
    Aligned(base + offset, alignment)
  }

  lemma SmallOffsetIsLeast(base: nat, alignment: int, offset: nat)
    requires alignment >= 1 && offset < alignment && Aligned(base + offset, alignment)
    ensures LeastAligned(base, alignment, offset)
  {
    forall o: nat | AlignedAt(base, o, alignment)
      ensures offset <= o
    {
      if o < offset {
        AlignedDifference(base + o, offset - o, alignment);
        NoSmallMultiple(offset - o, alignment);
      }
    }
  }

  lemma AlignedDifference(x: nat, d: nat, m: int)
    requires m >= 1 && Aligned(x, m) && Aligned(x + d, m)
    ensures Aligned(d, m)
  {
    var q, q' := x / m, (x + d) / m;
    assert x == m * q && x + d == m * q';
    assert d == (q' - q) * m;
    AlignedMultiple(d, m, q' - q);
  }

  lemma NoSmallMultiple(d: nat, m: int)
    requires 0 < d < m
    ensures !Aligned(d, m)
  {
    DivModUnique(d, m, 0, d);
  }

  /** Multiples of a larger power of two are multiples of a smaller one. */
  lemma SmallerAlignment(x: int, small: nat, large: nat)
    requires small <= large && Aligned(x, Pow2(large))
    ensures Aligned(x, Pow2(small))
  {
    Pow2Add(small, large - small);
    FactorAlignment(x, Pow2(small), Pow2(large - small));
  }

  lemma FactorAlignment(x: int, m: int, k: int)
    requires m >= 1 && k >= 1 && m * k >= 1 && Aligned(x, m * k)
    ensures Aligned(x, m)
  {
    var q := x / (m * k);
    assert x == (m * k) * q;
    Regroup(k, q, 0, m);
    assert x == (k * q) * m;
    AlignedMultiple(x, m, k * q);
  }

  /** Going on from a multiple of a smaller alignment to the next multiple of a larger one leaves the offset
      below the larger alignment. */
  lemma PaddingFits(base: nat, offset: nat, small: nat, large: nat)
    requires small <= large && offset < Pow2(small) && Aligned(base + offset, Pow2(small))
    ensures offset + Padding(base + offset, Pow2(large)) < Pow2(large)
  {
    var padding := Padding(base + offset, Pow2(large));
    PaddingAligns(base + offset, Pow2(large));
    SmallerAlignment(base + offset + padding, small, large);
    AlignedDifference(base + offset, padding, Pow2(small));
    Pow2Add(small, large - small);
    MultipleBelow(padding, Pow2(small), Pow2(large - small));
  }

  lemma MultipleBelow(d: nat, m: int, k: int)
    requires m >= 1 && k >= 1 && Aligned(d, m) && d < m * k
    ensures d <= m * k - m
  {
    var j := d / m;
    assert d == m * j;
    ScaleOrder(m, j, k);
    ScaleOrder(m, k - 1, j);
  }

  lemma ScaleOrder(m: int, a: int, b: int)
    requires m >= 1
    ensures a >= b ==> m * a >= m * b
    ensures m * (b - 1) == m * b - m && m * (a - 1) == m * a - m && m * (a + 1) == m * a + m
  {
  }

  lemma NoPadding(address: nat, alignment: int)
    requires alignment >= 1 && Aligned(address, alignment)
    ensures Padding(address, alignment) == 0
  {
    var q := address / alignment;
    assert address == alignment * q;
    assert 0 - address == (0 - q) * alignment;
    DivModUnique(0 - address, alignment, 0 - q, 0);
  }

  /** The arena offset law: after any sequence of requests, failures included, the free offset is the least one
      at which storage is aligned to the largest alignment that was granted. */
  lemma {:induction false} OffsetLaw(s: ArenaState, requests: seq<Request>)
    requires s.freeSpace == s.capacity
    ensures var offset, m := AfterRequests(s, requests).FreeOffset(), Pow2(LargestGranted(s, requests));
      offset < m && LeastAligned(s.base, m, offset)
  {
    hide LeastAligned, Aligned, Padding, AfterRequest, Granted;
    if requests == [] {
      assert Pow2(0) == 1;
      AlignedMultiple(s.base, 1, s.base);
      SmallOffsetIsLeast(s.base, 1, 0);
    } else {
      var front, last := requests[..|requests| - 1], requests[|requests| - 1];
      OffsetLaw(s, front);
      SameArena(s, front);
      OffsetStep(AfterRequests(s, front), last, LargestGranted(s, front));
      SameArena(s, requests);
    }
  }

  lemma OffsetStep(s: ArenaState, r: Request, largest: nat)
    requires s.Valid() && s.FreeOffset() < Pow2(largest) && LeastAligned(s.base, Pow2(largest), s.FreeOffset())
    ensures var offset, m := AfterRequest(s, r).FreeOffset(),
        Pow2(if Granted(s, r).Some? && r.exponent > largest then r.exponent else largest);
      offset < m && LeastAligned(s.base, m, offset)
  {
    var before, alignment := s.FreeOffset(), Pow2(r.exponent);
    BlockIsAligned(s, r);
    if Granted(s, r).Some? {
      hide Aligned, Padding;
      assert AfterRequest(s, r).FreeOffset() == before + Padding(s.base + before, alignment);
      if r.exponent > largest {
        PaddingFits(s.base, before, largest, r.exponent);
        SmallOffsetIsLeast(s.base, alignment, AfterRequest(s, r).FreeOffset());
      } else {
        SmallerAlignment(s.base + before, r.exponent, largest);
        NoPadding(s.base + before, alignment);
      }
    }
  }

  lemma {:induction false} SameArena(s: ArenaState, requests: seq<Request>)
    requires s.Valid()
    ensures AfterRequests(s, requests).base == s.base && AfterRequests(s, requests).capacity == s.capacity
  {
    if requests != [] {
      SameArena(s, requests[..|requests| - 1]);
    }
  }

  /** The offset does not depend on the order of the requests, nor on the sizes, beyond the largest
      alignment granted. */
  lemma OrderIrrelevant(s: ArenaState, requests: seq<Request>, others: seq<Request>)
    requires s.freeSpace == s.capacity && LargestGranted(s, requests) == LargestGranted(s, others)
    ensures AfterRequests(s, requests) == AfterRequests(s, others)
  {
    hide AfterRequests, LargestGranted, Aligned;
    OffsetLaw(s, requests);
    OffsetLaw(s, others);
    SameArena(s, requests);
    SameArena(s, others);
  }

  class Arena {
    const base: nat             // the address of storage.data()
    const storage: array<Byte>
    var freeSpace: nat

    ghost predicate Valid()
      reads this
    {
      freeSpace <= storage.Length < TWO_64
    }

    function State(): (s: ArenaState)
      reads this
    {
      ArenaState(base, storage.Length, freeSpace)
    }

    constructor (capacity: Word64, address: nat)
      ensures Valid() && fresh(storage) && storage.Length == capacity && base == address
      ensures State() == ArenaState(address, capacity, capacity) && storage[..] == Zeros(capacity)
    {
      base := address;
      storage := new Byte[capacity](_ => 0);
      freeSpace := capacity;
    }

    function GetFreeSpace(): nat
      reads this
    {
      freeSpace
    }

    function GetFreeOffset(): nat
      requires Valid()
      reads this
    {
      storage.Length - freeSpace
    }

    /** The bytes from the free offset on. */
    ghost function Free(): (free: Span)
      requires Valid()
      reads this, storage
      ensures |free| == freeSpace
    {
      storage[GetFreeOffset()..]
    }

    /** `getFreeOffsetAlignedTo<T>` with `T` of the given size, at least 1, and alignment: the offset that allocating
        a `T` would grant, or the size of storage exactly when allocating would throw. */
    method GetFreeOffsetAlignedTo(size: nat, exponent: nat) returns (offset: nat)
      requires Valid() && size >= 1
      ensures match Granted(State(), Request(size, exponent))
        case Some(granted) => offset == granted < storage.Length
        case None => offset == storage.Length
    {
      match Align(State(), Request(size, exponent), freeSpace, GetFreeOffset())
      case Some(aligned) => offset := aligned.0;
      case None => offset := storage.Length;
    }

    method AllocateRaw(size: nat, exponent: nat) returns (block: Option<nat>)
      requires Valid()
      modifies this`freeSpace
      ensures Valid() && State() == AfterRequest(old(State()), Request(size, exponent))
      ensures block == Granted(old(State()), Request(size, exponent))
    {
      var offset := GetFreeOffset();
      match Align(State(), Request(size, exponent), freeSpace, offset)
      case Some(aligned) =>
        freeSpace := aligned.1;
        block := Some(aligned.0);
      case None =>
        block := None;
    }

    /** `allocate<uint8_t[]>(count)`: the block of `count` bytes at the free offset, every byte zeroed. */
    method AllocateBytes(count: nat) returns (block: Option<nat>)
      requires Valid()
      modifies this`freeSpace, storage
      ensures Valid() && State() == old(State())
      ensures block == if count <= freeSpace then Some(GetFreeOffset()) else None
      ensures block.Some? ==>
        block.value + count <= storage.Length && storage[..] == Paste(old(storage[..]), block.value, Zeros(count))
      ensures block.None? ==> storage[..] == old(storage[..])
    {
      ByteAlignment(base + GetFreeOffset());
      block := AllocateRaw(count, 0);
      if block.Some? {
        var i := 0;
        while i < count
          invariant 0 <= i <= count
          invariant freeSpace == old(freeSpace)
          invariant forall k :: 0 <= k < storage.Length ==>
            storage[k] == if block.value <= k < block.value + i then 0 else old(storage[..])[k]
        {
          storage[block.value + i] := 0;
          i := i + 1;
        }
      }
    }
  }

  lemma ByteAlignment(address: nat)
    ensures Padding(address, Pow2(0)) == 0
  {
    assert Pow2(0) == 1;
  }
}
