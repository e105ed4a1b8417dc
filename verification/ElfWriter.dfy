/** Writing ELF files, the inverse of what the loader reads: every program header table is the table of some file
    whose header is accepted. The source has no writer; this one follows chapters 4 and 5 of the System V gABI. */
module ElfWriters {
  import opened Bits
  import opened Memory
  import opened Segments
  import opened Layout
  import opened ElfFiles
  import opened Results

  /** A file header that names a program header table. */
  function HeaderBytes(tableOffset: Word64, count: nat): (bytes: seq<Byte>)
    ensures |bytes| == ELF_HEADER_SIZE
  {
    [0x7f, 0x45, 0x4c, 0x46, 2, 1, 1, 0] + Zeros(8)              // e_ident
    + ([2, 0, 0xf3, 0, 1, 0, 0, 0] + Zeros(8))                   // e_type, e_machine, e_version; e_entry
    + (Bytes(tableOffset, 8) + Zeros(8))                         // e_phoff, e_shoff
    + ([0, 0, 0, 0, 64, 0, 56, 0] + (Bytes(count, 2) + Zeros(6)))
  }

  /** Which files begin with such a header. */
  predicate StartsWith(source: seq<Byte>, tableOffset: Word64, count: nat) {
    |source| >= ELF_HEADER_SIZE && source[..ELF_HEADER_SIZE] == HeaderBytes(tableOffset, count)
  }

  /** The header is accepted, but for its bound, and names the table. */
  lemma HeaderIsRead(source: seq<Byte>, tableOffset: Word64, count: nat)
    requires StartsWith(source, tableOffset, count) && count < 0x1_0000
    ensures TableOffset(source) == tableOffset && TableCount(source) == count
    ensures HeaderVerdict(source) ==
      if Wrap64(tableOffset + ENTRY_SIZE * count) > |source| then Some(ProgramHeadersOutOfBounds) else None
  {
    hide Bytes, LittleEndian, Zeros, Wrap64;
    Pow2Values();
    HeaderParts(source, tableOffset, count);
    LittleEndianBytes(tableOffset, 8);
    LittleEndianBytes(count, 2);
  }

  lemma HeaderParts(source: seq<Byte>, tableOffset: Word64, count: nat)
    requires StartsWith(source, tableOffset, count)
    ensures source[0..8] == [0x7f, 0x45, 0x4c, 0x46, 2, 1, 1, 0] && source[16..20] == [2, 0, 0xf3, 0]
    ensures source[24..32] == [0, 0, 0, 0, 0, 0, 0, 0] && source[54..56] == [56, 0]
    ensures source[32..40] == Bytes(tableOffset, 8) && source[56..58] == Bytes(count, 2)
  {
    hide Bytes;
    var header := HeaderBytes(tableOffset, count);
    forall from: nat, to: nat | from <= to <= ELF_HEADER_SIZE
      ensures source[from..to] == header[from..to]
    {
      assert source[from..to] == source[..ELF_HEADER_SIZE][from..to];
    }
  }

  /** The bytes of a header that the loader looks at, apart from the two that name the table: identification, type and
      machine, entry point, entry size. */
  predicate Constrained(k: nat) {
    k < 8 || 16 <= k < 20 || 24 <= k < 32 || 54 <= k < 56
  }

  /** The verdict on a header, against the one that the writer writes: every constrained byte must be the writer's (the
      entry point is reported apart), and then only the table's bound is left. */
  lemma HeaderVerdictExactly(source: seq<Byte>)
    requires |source| >= ELF_HEADER_SIZE
    ensures HeaderVerdict(source) == Some(InvalidHeader) <==>
      exists k: nat :: Constrained(k) && !(24 <= k < 32) && source[k] != HeaderBytes(0, 0)[k]
    ensures HeaderVerdict(source).None? || HeaderVerdict(source) == Some(ProgramHeadersOutOfBounds) <==>
      forall k: nat :: Constrained(k) ==> source[k] == HeaderBytes(0, 0)[k]
    ensures HeaderVerdict(source).None? <==>
      && (forall k: nat :: Constrained(k) ==> source[k] == HeaderBytes(0, 0)[k])
      && Wrap64(TableOffset(source) + 56 * TableCount(source)) <= |source|
  {
    hide Wrap64, TableOffset, TableCount, Bytes;
    var header := HeaderBytes(0, 0);
    HeaderConstants();
    hide HeaderBytes;
    SameRange(source, header, 0, 8);
    SameRange(source, header, 16, 20);
    SameRange(source, header, 24, 32);
    SameRange(source, header, 54, 56);
  }

  lemma HeaderConstants()
    ensures var header := HeaderBytes(0, 0);
      && header[0..8] == [0x7f, 0x45, 0x4c, 0x46, 2, 1, 1, 0] && header[16..20] == [2, 0, 0xf3, 0]
      && header[24..32] == [0, 0, 0, 0, 0, 0, 0, 0] && header[54..56] == [56, 0]
  {
    hide HeaderBytes, Bytes;
    assert HeaderBytes(0, 0)[..ELF_HEADER_SIZE] == HeaderBytes(0, 0);
    HeaderParts(HeaderBytes(0, 0), 0, 0);
  }

  lemma SameRange(a: seq<Byte>, b: seq<Byte>, from: nat, to: nat)
    requires from <= to <= |a| && to <= |b|
    ensures a[from..to] == b[from..to] <==> forall k :: from <= k < to ==> a[k] == b[k]
  {
    if a[from..to] == b[from..to] {
      forall k | from <= k < to
        ensures a[k] == b[k]
      {
        assert a[from..to][k - from] == b[from..to][k - from];
      }
    }
  }

  /** The table, entry after entry. */
  function TableBytes(table: Headers): (bytes: seq<Byte>)
    ensures |bytes| == ENTRY_SIZE * |table|
  {
    if table == [] then [] else TableBytes(table[..|table| - 1]) + EntryBytes(table[|table| - 1], 0, 0)
  }

  lemma {:induction false} TableBytesAt(table: Headers, k: nat)
    requires k < |table|
    ensures TableBytes(table)[ENTRY_SIZE * k..ENTRY_SIZE * k + ENTRY_SIZE] == EntryBytes(table[k], 0, 0)
    decreases |table|
  {
    hide EntryBytes;
    var front, entry := TableBytes(table[..|table| - 1]), EntryBytes(table[|table| - 1], 0, 0);
    assert TableBytes(table) == front + entry;
    if k < |table| - 1 {
      TableBytesAt(table[..|table| - 1], k);
      SliceOfFront(front, entry, ENTRY_SIZE * k, ENTRY_SIZE * k + ENTRY_SIZE);
    }
  }

  lemma SliceOfFront(front: seq<Byte>, rest: seq<Byte>, from: nat, to: nat)
    requires from <= to <= |front|
    ensures (front + rest)[from..to] == front[from..to]
  {
  }

  /** A file with the given program header table directly behind its header, and then the given bytes. */
  function FileWith(table: Headers, rest: seq<Byte>): seq<Byte> {
    HeaderBytes(ELF_HEADER_SIZE, |table|) + TableBytes(table) + rest
  }

  /** Where the bytes behind the table are. */
  function RestOffset(table: Headers): nat {
    ELF_HEADER_SIZE + ENTRY_SIZE * |table|
  }

  /** The loader reads that very table. */
  lemma TableRoundTrip(table: Headers, rest: seq<Byte>)
    requires |table| < 0x1_0000
    ensures var source := FileWith(table, rest);
      && |source| == RestOffset(table) + |rest| && source[RestOffset(table)..] == rest
      && HeaderVerdict(source) == None && TableInFile(source) && !TableWraps(source) && TableOf(source) == table
  {
    hide HeaderBytes, TableBytes, HeaderVerdict, TableOffset, TableCount, FileWith, StartsWith, TableUpTo;
    WrittenParts(table, rest);
    HeaderIsRead(FileWith(table, rest), ELF_HEADER_SIZE, |table|);
    DivModUnique(RestOffset(table), TWO_64, 0, RestOffset(table));
    ReadsTable(table, rest, |table|);
    assert table[..|table|] == table;
  }

  lemma WrittenParts(table: Headers, rest: seq<Byte>)
    ensures var source := FileWith(table, rest);
      && |source| == RestOffset(table) + |rest| && source[RestOffset(table)..] == rest
      && StartsWith(source, ELF_HEADER_SIZE, |table|)
  {
    hide HeaderBytes, TableBytes;
  }

  lemma {:induction false} ReadsTable(table: Headers, rest: seq<Byte>, k: nat)
    requires k <= |table| && TableOffset(FileWith(table, rest)) == ELF_HEADER_SIZE
    ensures TableUpTo(FileWith(table, rest), k) == table[..k]
  {
    hide HeaderBytes, TableBytes, TableOffset, SegmentAt, EntryBytes;
    if k > 0 {
      var source, entry := FileWith(table, rest), ELF_HEADER_SIZE + ENTRY_SIZE * (k - 1);
      ReadsTable(table, rest, k - 1);
      TableBytesAt(table, k - 1);
      EntryInFileWith(table, rest, k - 1);
      EntryRoundTrip(source, entry, table[k - 1], 0, 0);
      assert table[..k] == table[..k - 1] + [table[k - 1]];
    }
  }

  lemma EntryInFileWith(table: Headers, rest: seq<Byte>, k: nat)
    requires k < |table|
    ensures var from := ENTRY_SIZE * k;
      FileWith(table, rest)[ELF_HEADER_SIZE + from..ELF_HEADER_SIZE + from + ENTRY_SIZE] ==
        TableBytes(table)[from..from + ENTRY_SIZE]
  {
    hide HeaderBytes, TableBytes;
    var from := ENTRY_SIZE * k;
    SliceOfMiddle(HeaderBytes(ELF_HEADER_SIZE, |table|), TableBytes(table), rest, from, from + ENTRY_SIZE);
  }

  lemma SliceOfMiddle(a: seq<Byte>, b: seq<Byte>, c: seq<Byte>, from: nat, to: nat)
    requires from <= to <= |b|
    ensures (a + b + c)[|a| + from..|a| + to] == b[from..to]
  {
  }
}
