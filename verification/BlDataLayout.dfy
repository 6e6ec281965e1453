/** What the accessors of the bootloader data stand for, in terms of the words of a
    record: its checksum, its partition descriptors, and the table compiled in. */
module BlDataLayout {
  import opened Bits
  import opened Flash
  import opened BlData
  import Crc16

  // ---------------------------------------------------------------------------
  // The checksum
  // ---------------------------------------------------------------------------

  /** Byte n of a record in memory: words are stored least significant byte first. */
  function MemoryByte(words: seq<Word>, n: nat): Byte
    requires n < 4 * |words|
  {
    words[n / 4][24 - 8 * (n % 4)..32 - 8 * (n % 4)]
  }

  lemma {:induction false} BytesLength(words: seq<Word>)
    ensures |BytesOf(words)| == 4 * |words|
    decreases |words|
  {
    if words == [] {
    } else {
      BytesLength(words[..|words| - 1]);
    }
  }

  lemma {:induction false} ByteOfWord(words: seq<Word>, k: nat, j: nat)
    requires k < |words| && j < 4
    ensures |BytesOf(words)| == 4 * |words| && BytesOf(words)[4 * k + j] == WordBytes(words[k])[j]
    decreases |words|
  {
    var n := |words| - 1;
    var front, last := BytesOf(words[..n]), WordBytes(words[n]);
    BytesLength(words[..n]);
    assert BytesOf(words) == front + last;
    hide WordBytes, BytesOf;
    if k < n {
      ByteOfWord(words[..n], k, j);
    }
  }

  lemma ByteIs(w: Word, j: nat)
    requires j < 4
    ensures WordBytes(w)[j] == w[24 - 8 * j..32 - 8 * j]
  {
  }

  lemma BytesAt(words: seq<Word>, n: nat)
    requires n < 4 * |words|
    ensures |BytesOf(words)| == 4 * |words| && BytesOf(words)[n] == MemoryByte(words, n)
  {
    var k, j := n / 4, n % 4;
    assert n == 4 * k + j;
    hide BytesOf, WordBytes;
    ByteOfWord(words, k, j);
    ByteIs(words[k], j);
  }

  /** A record is intact exactly if its last word is the remainder, on division by the
      generator, of the 1216 bytes before it as they lie in memory. */
  lemma IntactIs(r: Record, bytes: seq<Byte>)
    requires |bytes| == 1216
    requires forall n | 0 <= n < 1216 :: bytes[n] == r[n / 4][24 - 8 * (n % 4)..32 - 8 * (n % 4)]
    ensures Intact(r) <==> r[304] == Zeros(16) + Crc16.Remainder(Crc16.MessageBits(bytes) + Zeros(16))
  {
    hide Crc16.Register, Crc16.Remainder, Crc16.MessageBits, BytesOf;
    var words := r[..CRC_WORD];
    BytesAt(words, 0);
    forall n | 0 <= n < 1216
      ensures bytes[n] == BytesOf(words)[n]
    {
      BytesAt(words, n);
    }
    assert bytes == BytesOf(words);
    Crc16.CrcIsDivision(bytes);
  }

  lemma {:induction false} MessageBitAt(data: seq<Byte>, i: nat)
    requires i < 8 * |data|
    ensures Crc16.MessageBits(data)[i] == data[i / 8][i % 8]
    decreases |data|
  {
    var n := |data| - 1;
    if i < 8 * n {
      MessageBitAt(data[..n], i);
    } else {
      assert i == 8 * n + i % 8 && i / 8 == n;
    }
  }

  /** Damage to two bytes next to each other is a burst of 16 bits. */
  lemma TwoBytesAreBurst(a: seq<Byte>, b: seq<Byte>, at: nat)
    requires |a| == |b|
    requires forall n | 0 <= n < |a| && n != at && n != at + 1 :: a[n] == b[n]
    ensures Crc16.Burst(Xor(Crc16.MessageBits(a), Crc16.MessageBits(b)), 8 * at)
  {
    forall i: nat | i < 8 * |a| && Crc16.MessageBits(a)[i] != Crc16.MessageBits(b)[i]
      ensures 8 * at <= i < 8 * at + 16
    {
      MessageBitAt(a, i);
      MessageBitAt(b, i);
      assert i == 8 * (i / 8) + i % 8;
    }
  }

  lemma SameBytesSameWord(v: Word, w: Word)
    requires v[0..8] == w[0..8] && v[8..16] == w[8..16] && v[16..24] == w[16..24] && v[24..32] == w[24..32]
    ensures v == w
  {
    assert v == v[0..8] + v[8..16] + v[16..24] + v[24..32];
    assert w == w[0..8] + w[8..16] + w[16..24] + w[24..32];
  }

  lemma SameByteOfWord(v: seq<Word>, w: seq<Word>, k: nat, j: nat)
    requires |v| == |w| && BytesOf(v) == BytesOf(w) && k < |v| && j < 4
    ensures v[k][24 - 8 * j..32 - 8 * j] == w[k][24 - 8 * j..32 - 8 * j]
  {
    hide BytesOf;
    var n := 4 * k + j;
    assert n / 4 == k && n % 4 == j;
    BytesAt(v, n);
    BytesAt(w, n);
  }

  // Words that differ differ in memory.
  lemma SameInMemory(v: seq<Word>, w: seq<Word>)
    requires |v| == |w| && BytesOf(v) == BytesOf(w)
    ensures v == w
  {
    hide BytesOf;
    forall k | 0 <= k < |v|
      ensures v[k] == w[k]
    {
      SameByteOfWord(v, w, k, 0);
      SameByteOfWord(v, w, k, 1);
      SameByteOfWord(v, w, k, 2);
      SameByteOfWord(v, w, k, 3);
      SameBytesSameWord(v[k], w[k]);
    }
  }

  /** Any damage to two neighbouring bytes before the checksum of an intact record is
      noticed, be they in one word or in two. */
  lemma TwoBytesDetected(r: Record, s: Record, at: nat)
    requires Intact(r) && r != s && r[CRC_WORD] == s[CRC_WORD]
    requires forall n | 0 <= n < 4 * CRC_WORD && n != at && n != at + 1 ::
      MemoryByte(r[..CRC_WORD], n) == MemoryByte(s[..CRC_WORD], n)
    ensures !Intact(s)
  {
    hide Crc16.Burst, Crc16.Register, Crc16.MessageBits, BytesOf, MemoryByte;
    var a, b := BytesOf(r[..CRC_WORD]), BytesOf(s[..CRC_WORD]);
    BytesAt(r[..CRC_WORD], 0);
    BytesAt(s[..CRC_WORD], 0);
    forall n | 0 <= n < |a| && n != at && n != at + 1
      ensures a[n] == b[n]
    {
      BytesAt(r[..CRC_WORD], n);
      BytesAt(s[..CRC_WORD], n);
    }
    assert r == r[..CRC_WORD] + [r[CRC_WORD]] && s == s[..CRC_WORD] + [s[CRC_WORD]];
    if a == b {
      SameInMemory(r[..CRC_WORD], s[..CRC_WORD]);
    }
    TwoBytesAreBurst(a, b, at);
    Crc16.BurstDetected(a, b, 8 * at);
    assert Checksum(r)[16..] == Crc16.CrcOf(a) && Checksum(s)[16..] == Crc16.CrcOf(b);
  }

  lemma OtherHalf(v: Word, w: Word, j: nat, low: bool)
    requires if low then v[0..16] == w[0..16] && 2 <= j < 4 else v[16..32] == w[16..32] && j < 2
    ensures v[24 - 8 * j..32 - 8 * j] == w[24 - 8 * j..32 - 8 * j]
  {
    ByteInHalf(v, j, low);
    ByteInHalf(w, j, low);
  }

  lemma ByteInHalf(w: Word, j: nat, low: bool)
    requires if low then 2 <= j < 4 else j < 2
    ensures w[24 - 8 * j..32 - 8 * j]
         == if low then w[0..16][24 - 8 * j..32 - 8 * j] else w[16..32][8 - 8 * j..16 - 8 * j]
  {
    if j == 0 {
      assert w[16..32][8..16] == w[24..32];
    } else if j == 1 {
      assert w[16..32][0..8] == w[16..24];
    } else if j == 2 {
      assert w[0..16][8..16] == w[8..16];
    } else {
      assert w[0..16][0..8] == w[0..8];
    }
  }

  lemma ByteElsewhere(v: seq<Word>, w: seq<Word>, k: nat, low: bool, n: nat)
    requires |v| == |w| && k < |v| && n < 4 * |v|
    requires forall m | 0 <= m < |v| && m != k :: v[m] == w[m]
    requires if low then v[k][0..16] == w[k][0..16] else v[k][16..32] == w[k][16..32]
    requires var at := if low then 4 * k else 4 * k + 2; n != at && n != at + 1
    ensures MemoryByte(v, n) == MemoryByte(w, n)
  {
    var m, j := n / 4, n % 4;
    assert n == 4 * m + j;
    if m == k {
      OtherHalf(v[k], w[k], j, low);
    }
  }

  /** In particular any damage to one half of one word. */
  lemma HalfWordDetected(r: Record, s: Record, k: nat, low: bool)
    requires Intact(r) && r != s && k < CRC_WORD
    requires s == r[k := s[k]]
    requires if low then r[k][0..16] == s[k][0..16] else r[k][16..32] == s[k][16..32]
    ensures !Intact(s)
  {
    var at := if low then 4 * k else 4 * k + 2;
    forall n | 0 <= n < 4 * CRC_WORD && n != at && n != at + 1
      ensures MemoryByte(r[..CRC_WORD], n) == MemoryByte(s[..CRC_WORD], n)
    {
      ByteElsewhere(r[..CRC_WORD], s[..CRC_WORD], k, low, n);
    }
    hide Intact, MemoryByte;
    TwoBytesDetected(r, s, at);
  }

  // ---------------------------------------------------------------------------
  // The partition descriptors
  // ---------------------------------------------------------------------------

  /** A descriptor, field by field. */
  datatype Descriptor = Descriptor(target: Word, controller: Word, firstPage: Word, numPages: Word, start: Word,
                                   isConsistent: Word, version: Word) {
    function Words(): seq<Word> {
      [target, controller, firstPage, numPages, start, isConsistent, version]
    }
  }

  /** The descriptors of a record, one after the other from its second kilobyte on. */
  ghost predicate Holds(r: Record, table: seq<Descriptor>) {
    |table| == 4 && forall i | 0 <= i < 4 :: r[256 + 7 * i..256 + 7 * i + 7] == table[i].Words()
  }

  lemma WordOfDescriptor(r: Record, table: seq<Descriptor>, i: nat, j: nat)
    requires Holds(r, table) && i < 4 && j < 7
    ensures r[256 + 7 * i + j] == table[i].Words()[j]
  {
    assert r[256 + 7 * i..256 + 7 * i + 7][j] == r[256 + 7 * i + j];
  }

  lemma Fields(r: Record, table: seq<Descriptor>, i: nat)
    requires Holds(r, table) && i < 4
    ensures Controller(r, i) == Value(table[i].controller)
    ensures FirstPage(r, i) == Value(table[i].firstPage) && NumPages(r, i) == Value(table[i].numPages)
    ensures r[FlagAt(i)] == table[i].isConsistent
  {
    WordOfDescriptor(r, table, i, 1);
    WordOfDescriptor(r, table, i, 2);
    WordOfDescriptor(r, table, i, 3);
    WordOfDescriptor(r, table, i, 5);
  }

  /** Erases of the pages from `first` up to, but not with, `stop`, in order. */
  function PageErases(controller: nat, first: nat, stop: nat): seq<FlashOp> {
    if stop <= first then []
    else seq(stop - first, p requires 0 <= p < stop - first => Erase(PageId(controller, first + p)))
  }

  // The pages of a range that the driver lets through.
  lemma {:induction false} RangeIs(controller: nat, from: nat, end: nat)
    ensures var stop := if end <= MAX_PAGE_NUM then end else MAX_PAGE_NUM + 1;
      EraseRange(controller, from, end) == if controller >= CONTROLLERS then [] else PageErases(controller, from, stop)
    decreases end - from
  {
    if from >= end {
    } else {
      RangeIs(controller, from, end - 1);
    }
  }

  lemma ErasesTheRange(r: Record, i: nat)
    requires i < PARTITIONS
    ensures var end := (FirstPage(r, i) + NumPages(r, i)) % UINT32;
      var stop := if end <= MAX_PAGE_NUM then end else MAX_PAGE_NUM + 1;
      ErasePartitionOps(r, i) ==
        if Controller(r, i) >= CONTROLLERS then [] else PageErases(Controller(r, i), FirstPage(r, i), stop)
  {
    hide EraseRange, PageErases, Value, Controller, FirstPage, NumPages;
    RangeIs(Controller(r, i), FirstPage(r, i), (FirstPage(r, i) + NumPages(r, i)) % UINT32);
  }

  /** The erases issued for a partition are those of the pages of its descriptor: from
      its first page up to the 32-bit end of its range, as far as the driver lets
      them through; and its flag is the sixth field. */
  lemma ErasesItsPages(r: Record, table: seq<Descriptor>, i: nat)
    requires Holds(r, table) && i < PARTITIONS
    ensures Inconsistent(r, i) <==> table[i].isConsistent == Number(0)
    ensures var controller, first := Value(table[i].controller), Value(table[i].firstPage);
      var end := (first + Value(table[i].numPages)) % 0x1_0000_0000;
      var stop := if end <= 96 then end else 97;
      ErasePartitionOps(r, i) == if controller >= 2 then [] else PageErases(controller, first, stop)
  {
    hide Holds, EraseRange, ErasePartitionOps, PageErases, Value, Number, Controller, FirstPage, NumPages;
    SmallNumbers();
    Fields(r, table, i);
    ErasesTheRange(r, i);
  }

  /** A descriptor after a repair. */
  function Consistent(d: Descriptor): Descriptor {
    if d.isConsistent == Number(0) then d.(isConsistent := Number(1)) else d
  }

  function AllConsistent(table: seq<Descriptor>): (t: seq<Descriptor>)
    ensures |t| == |table|
  {
    seq(|table|, i requires 0 <= i < |table| => Consistent(table[i]))
  }

  lemma RepairedWord(r: Record, k: nat)
    requires k < CRC_WORD
    ensures Repaired(r)[k] == MarkConsistent(r, 4)[k]
  {
    hide Intact, MarkConsistent;
    if AnyInconsistent(r, PARTITIONS) {
      assert Repaired(r)[k] == Repaired(r)[..CRC_WORD][k] == MarkConsistent(r, 4)[..CRC_WORD][k];
    } else {
      NothingToMark(r, PARTITIONS);
    }
  }

  // No word but the flags is changed.
  lemma OtherWordsKept(r: Record, k: nat)
    requires k < CRC_WORD && forall i | 0 <= i < 4 :: k != FlagAt(i)
    ensures Repaired(r)[k] == r[k]
  {
    hide Repaired, MarkConsistent;
    RepairedWord(r, k);
    MarkedKeeps(r, 4, k);
  }

  lemma FlagRepaired(r: Record, i: nat)
    requires i < 4
    ensures FlagAt(i) < CRC_WORD
    ensures Repaired(r)[FlagAt(i)] == if r[FlagAt(i)] == Zeros(32) then Zeros(31) + [true] else r[FlagAt(i)]
  {
    hide Repaired, MarkConsistent;
    RepairedWord(r, FlagAt(i));
    MarkedAt(r, 4);
    assert FALSE_WORD == Zeros(32) && TRUE_WORD == Zeros(31) + [true];
    if !Inconsistent(r, i) {
      assert forall j | 0 <= j < 4 && FlagAt(i) == FlagAt(j) :: i == j;
    }
  }

  lemma NotAFlag(i: nat, j: nat)
    requires i < 4 && j < 7 && j != 5
    ensures forall n | 0 <= n < 4 :: 256 + 7 * i + j != FlagAt(n)
  {
  }

  lemma DescriptorRepaired(r: Record, table: seq<Descriptor>, i: nat, j: nat)
    requires Holds(r, table) && i < 4 && j < 7
    ensures Repaired(r)[256 + 7 * i + j] == Consistent(table[i]).Words()[j]
  {
    hide Repaired, Holds;
    WordOfDescriptor(r, table, i, j);
    if j == 5 {
      assert FlagAt(i) == 256 + 7 * i + 5;
      hide FlagAt, Number;
      SmallNumbers();
      FlagRepaired(r, i);
    } else {
      NotAFlag(i, j);
      hide FlagAt, Number;
      OtherWordsKept(r, 256 + 7 * i + j);
    }
  }

  /** A repair marks the descriptors, and changes no other word but the checksum. */
  lemma RepairsTable(r: Record, table: seq<Descriptor>)
    requires Holds(r, table)
    ensures Holds(Repaired(r), AllConsistent(table))
    ensures Repaired(r)[..256] == r[..256] && Repaired(r)[284..304] == r[284..304]
  {
    hide Repaired, Consistent;
    var s := Repaired(r);
    forall k: nat | k < 256 || 284 <= k < 304
      ensures s[k] == r[k]
    {
      OtherWordsKept(r, k);
    }
    forall i | 0 <= i < 4
      ensures s[256 + 7 * i..256 + 7 * i + 7] == AllConsistent(table)[i].Words()
    {
      DescriptorRepaired(r, table, i, 0);
      DescriptorRepaired(r, table, i, 1);
      DescriptorRepaired(r, table, i, 2);
      DescriptorRepaired(r, table, i, 3);
      DescriptorRepaired(r, table, i, 4);
      DescriptorRepaired(r, table, i, 5);
      DescriptorRepaired(r, table, i, 6);
    }
  }

  // ---------------------------------------------------------------------------
  // The table compiled in
  // ---------------------------------------------------------------------------

  /** The four descriptors for two banks; the versions are not given, and so are 0. */
  function DefaultTable(): seq<Descriptor> {
    [Descriptor(Number(0), Number(1), Number(0), Number(48), Number(0x4003_0000), Number(1), Number(0)),
     Descriptor(Number(1), Number(0), Number(0), Number(47), Number(0x4000_0000), Number(1), Number(0)),
     Descriptor(Number(0), Number(1), Number(48), Number(48), Number(0x4004_8000), Number(1), Number(0)),
     Descriptor(Number(1), Number(0), Number(47), Number(47), Number(0x4001_7800), Number(1), Number(0))]
  }

  lemma DefaultNumbers()
    ensures Value(Number(0)) == 0 && Value(Number(1)) == 1 && Value(Number(47)) == 47 && Value(Number(48)) == 48
  {
    ValueOfNumber(0);
    ValueOfNumber(1);
    ValueOfNumber(47);
    ValueOfNumber(48);
  }

  lemma DefaultFields(r: Record)
    requires Holds(r, DefaultTable())
    ensures Controller(r, 0) == 1 && FirstPage(r, 0) == 0 && NumPages(r, 0) == 48
    ensures Controller(r, 1) == 0 && FirstPage(r, 1) == 0 && NumPages(r, 1) == 47
    ensures Controller(r, 2) == 1 && FirstPage(r, 2) == 48 && NumPages(r, 2) == 48
    ensures Controller(r, 3) == 0 && FirstPage(r, 3) == 47 && NumPages(r, 3) == 47
    ensures !AnyInconsistent(r, PARTITIONS)
  {
    hide Controller, FirstPage, NumPages, Value, Number, Holds;
    DefaultNumbers();
    SmallNumbers();
    Fields(r, DefaultTable(), 0);
    Fields(r, DefaultTable(), 1);
    Fields(r, DefaultTable(), 2);
    Fields(r, DefaultTable(), 3);
    assert (Zeros(31) + [true])[31] && !Zeros(32)[31];
  }

  // The pages of the four partitions.
  lemma DefaultCovers(r: Record, id: PageId)
    requires Holds(r, DefaultTable())
    ensures Covers(r, 0, id) <==> id.controller == 1 && id.page < 48
    ensures Covers(r, 1, id) <==> id.controller == 0 && id.page < 47
    ensures Covers(r, 2, id) <==> id.controller == 1 && 48 <= id.page < 96
    ensures Covers(r, 3, id) <==> id.controller == 0 && 47 <= id.page < 94
  {
    hide Controller, FirstPage, NumPages, Inconsistent, Holds, DefaultTable;
    DefaultFields(r);
  }

  lemma DefaultInside(r: Record, i: nat)
    requires Holds(r, DefaultTable()) && i < PARTITIONS
    ensures Controller(r, i) < CONTROLLERS && FirstPage(r, i) + NumPages(r, i) <= REGION_PAGES
  {
    hide Controller, FirstPage, NumPages, Inconsistent, Holds, DefaultTable;
    DefaultFields(r);
  }

  /** The table compiled in for two banks keeps away from both copies, its partitions
      are disjoint, and all of them are marked consistent. */
  lemma DefaultGeometry(r: Record)
    requires Holds(r, DefaultTable())
    ensures GoodGeometry(r) && !AnyInconsistent(r, PARTITIONS)
    ensures forall i, j, id | 0 <= i < j < PARTITIONS :: !(Covers(r, i, id) && Covers(r, j, id))
  {
    hide Controller, FirstPage, NumPages, Covers, Inconsistent, Holds, DefaultTable;
    DefaultFields(r);
    DefaultCovers(r, MAIN);
    DefaultCovers(r, BACKUP);
    forall i | 0 <= i < PARTITIONS
      ensures Controller(r, i) < CONTROLLERS && FirstPage(r, i) + NumPages(r, i) <= REGION_PAGES
      ensures !Covers(r, i, MAIN) && !Covers(r, i, BACKUP)
    {
      DefaultInside(r, i);
    }
    forall i, j, id | 0 <= i < j < PARTITIONS
      ensures !(Covers(r, i, id) && Covers(r, j, id))
    {
      DefaultCovers(r, id);
    }
  }

  lemma TableOfBoard(shadow: Record, board: Board, i: nat)
    requires board.Valid() && i < 4
    ensures Seal(Provisioned(shadow, board))[256 + 7 * i..256 + 7 * i + 7] == board.partitions[7 * i..7 * i + 7]
  {
    var r := Provisioned(shadow, board);
    assert Seal(r)[..CRC_WORD] == r[..CRC_WORD];
    assert r[256..284] == board.partitions;
    assert Seal(r)[256 + 7 * i..256 + 7 * i + 7] == r[256..284][7 * i..7 * i + 7];
  }

  /** A board whose constants are that table provisions a record with this geometry. */
  lemma ProvisionsDefaults(shadow: Record, board: Board)
    requires board.Valid()
    requires forall i | 0 <= i < 4 :: board.partitions[7 * i..7 * i + 7] == DefaultTable()[i].Words()
    ensures var initial := Seal(Provisioned(shadow, board));
      Intact(initial) && GoodGeometry(initial) && !AnyInconsistent(initial, PARTITIONS)
  {
    hide Provisioned, Intact;
    forall i | 0 <= i < 4
      ensures Seal(Provisioned(shadow, board))[256 + 7 * i..256 + 7 * i + 7] == DefaultTable()[i].Words()
    {
      TableOfBoard(shadow, board, i);
    }
    DefaultGeometry(Seal(Provisioned(shadow, board)));
  }
}
