/** Bootloader data: a record kept twice in flash, main and backup, rewritten one
    copy after the other and repaired at every boot.

    This module holds the record, the specification of every operation as the
    list of flash requests it issues, and the class that issues them.  The crash
    results are in BlDataCrash. */
module BlData {
  import opened Bits
  import opened Flash
  import Crc16

  // ---------------------------------------------------------------------------
  // Layout (Quark SE, dual bank)
  // ---------------------------------------------------------------------------

  const MAIN: PageId := PageId(0, 94)
  const BACKUP: PageId := PageId(0, 95)

  const TRIM_WORDS: nat := 2
  const PARTITIONS: nat := 4
  const PARTITION_WORDS: nat := 7
  const TARGETS: nat := 2
  const TARGET_WORDS: nat := 2

  // Trim codes, ROM version and padding fill the first kilobyte.
  const PARTITIONS_AT: nat := 256
  const TARGETS_AT: nat := 284 // PARTITIONS_AT + PARTITIONS * PARTITION_WORDS
  const CRC_WORD: nat := 304 // TARGETS_AT + TARGETS * TARGET_WORDS, and two keys of eight words
  const RECORD_WORDS: nat := 305

  const FALSE_WORD: Word := Zeros(32)
  const TRUE_WORD: Word := Zeros(31) + [true]

  type Record = r: seq<Word> | |r| == RECORD_WORDS witness Blanks(RECORD_WORDS)

  function RecordOf(page: Page): Record {
    page[..RECORD_WORDS]
  }

  // ---------------------------------------------------------------------------
  // The checksum field
  // ---------------------------------------------------------------------------

  /** The bytes of a word in memory order: least significant first. */
  function WordBytes(w: Word): (b: seq<Byte>)
    ensures |b| == 4
  {
    [w[24..32], w[16..24], w[8..16], w[0..8]]
  }

  function BytesOf(words: seq<Word>): seq<Byte> {
    if words == [] then [] else BytesOf(words[..|words| - 1]) + WordBytes(words[|words| - 1])
  }

  /** The computed checksum of everything before the checksum field, as the
      32-bit value it is compared with. */
  function Checksum(r: Record): Word {
    Crc16.Widen(Crc16.CrcOf(BytesOf(r[..CRC_WORD])))
  }

  predicate Intact(r: Record) {
    r[CRC_WORD] == Checksum(r)
  }

  function Seal(r: Record): (s: Record)
    ensures Intact(s) && s[..CRC_WORD] == r[..CRC_WORD]
  {
    var s := r[CRC_WORD := Checksum(r)];
    assert s[..CRC_WORD] == r[..CRC_WORD];
    s
  }

  // ---------------------------------------------------------------------------
  // Partition descriptors
  // ---------------------------------------------------------------------------

  function FlagAt(i: nat): nat {
    PARTITIONS_AT + PARTITION_WORDS * i + 5
  }

  function Controller(r: Record, i: nat): nat
    requires i < PARTITIONS
  {
    Value(r[PARTITIONS_AT + PARTITION_WORDS * i + 1])
  }

  function FirstPage(r: Record, i: nat): nat
    requires i < PARTITIONS
  {
    Value(r[PARTITIONS_AT + PARTITION_WORDS * i + 2])
  }

  function NumPages(r: Record, i: nat): nat
    requires i < PARTITIONS
  {
    Value(r[PARTITIONS_AT + PARTITION_WORDS * i + 3])
  }

  predicate Inconsistent(r: Record, i: nat)
    requires i < PARTITIONS
  {
    r[FlagAt(i)] == FALSE_WORD
  }

  /** Whether any of the first n partitions is marked inconsistent. */
  predicate AnyInconsistent(r: Record, n: nat)
    requires n <= PARTITIONS
  {
    exists i | 0 <= i < n :: Inconsistent(r, i)
  }

  /** The record with the flags of the first n partitions set wherever clear. */
  function MarkConsistent(r: Record, n: nat): Record
    requires n <= PARTITIONS
  {
    if n == 0 then r
    else if Inconsistent(r, n - 1) then MarkConsistent(r, n - 1)[FlagAt(n - 1) := TRUE_WORD]
    else MarkConsistent(r, n - 1)
  }

  /** What a repair makes of a surviving record. */
  function Repaired(r: Record): Record {
    if AnyInconsistent(r, PARTITIONS) then Seal(MarkConsistent(r, PARTITIONS)) else r
  }

  /** Page `page` of controller `controller` belongs to partition i. */
  predicate Covers(r: Record, i: nat, id: PageId)
    requires i < PARTITIONS
  {
    id.controller == Controller(r, i) && FirstPage(r, i) <= id.page < FirstPage(r, i) + NumPages(r, i)
  }

  /** The partitions lie inside the flash, and away from both copies. */
  predicate GoodGeometry(r: Record) {
    forall i | 0 <= i < PARTITIONS ::
      && Controller(r, i) < CONTROLLERS
      && FirstPage(r, i) + NumPages(r, i) <= REGION_PAGES
      && !Covers(r, i, MAIN) && !Covers(r, i, BACKUP)
  }

  // ---------------------------------------------------------------------------
  // Operations as lists of flash requests
  // ---------------------------------------------------------------------------

  const UINT32: nat := 0x1_0000_0000

  function AcceptedErase(controller: nat, page: nat): seq<FlashOp> {
    if controller < CONTROLLERS && page <= MAX_PAGE_NUM then [Erase(PageId(controller, page))] else []
  }

  /** The erases the driver accepts for pages from..end of one controller. */
  function EraseRange(controller: nat, from: nat, end: nat): seq<FlashOp>
    decreases end - from
  {
    if from >= end then []
    else EraseRange(controller, from, end - 1) + AcceptedErase(controller, end - 1)
  }

  /** Erasing one partition; the end of the range is a 32-bit sum. */
  function ErasePartitionOps(r: Record, i: nat): seq<FlashOp>
    requires i < PARTITIONS
  {
    EraseRange(Controller(r, i), FirstPage(r, i), (FirstPage(r, i) + NumPages(r, i)) % UINT32)
  }

  /** Erasing those of the first n partitions that are marked inconsistent. */
  function ErasePartitionsOps(r: Record, n: nat): seq<FlashOp>
    requires n <= PARTITIONS
  {
    if n == 0 then []
    else if Inconsistent(r, n - 1) then ErasePartitionsOps(r, n - 1) + ErasePartitionOps(r, n - 1)
    else ErasePartitionsOps(r, n - 1)
  }

  /** Main first, backup then. */
  function WritebackOps(r: Record): seq<FlashOp> {
    WriteOps(MAIN, r) + WriteOps(BACKUP, r)
  }

  function SanitizePartitionsOps(r: Record): seq<FlashOp> {
    ErasePartitionsOps(r, PARTITIONS)
    + (if AnyInconsistent(r, PARTITIONS) then WritebackOps(Repaired(r)) else [])
  }

  predicate HasCopies(image: Image) {
    MAIN in image && BACKUP in image
  }

  function MainRecord(image: Image): Record
    requires HasCopies(image)
  {
    RecordOf(image[MAIN])
  }

  function BackupRecord(image: Image): Record
    requires HasCopies(image)
  {
    RecordOf(image[BACKUP])
  }

  /** The record a boot will run with: main if it is intact, else the backup. */
  predicate Survives(image: Image)
    requires HasCopies(image)
  {
    Intact(MainRecord(image)) || Intact(BackupRecord(image))
  }

  function Survivor(image: Image): Record
    requires HasCopies(image) && Survives(image)
  {
    if Intact(MainRecord(image)) then MainRecord(image) else BackupRecord(image)
  }

  predicate SectionBlank(image: Image)
    requires HasCopies(image)
  {
    image[MAIN] == Blanks(PAGE_WORDS) && image[BACKUP] == Blanks(PAGE_WORDS)
  }

  /** A boot stops for good: neither copy is intact, and the section is not blank. */
  predicate Halts(image: Image)
    requires HasCopies(image)
  {
    !Survives(image) && !SectionBlank(image)
  }

  /** Making the two copies agree. */
  function RestoreOps(image: Image): seq<FlashOp>
    requires HasCopies(image) && Survives(image)
  {
    if !Intact(MainRecord(image)) then WriteOps(MAIN, BackupRecord(image))
    else if MainRecord(image) != BackupRecord(image) then WriteOps(BACKUP, MainRecord(image))
    else []
  }

  /** A whole sanitize of a section with a surviving copy. */
  function SanitizeOps(image: Image): seq<FlashOp>
    requires HasCopies(image) && Survives(image)
  {
    RestoreOps(image) + SanitizePartitionsOps(Survivor(image))
  }

  // ---------------------------------------------------------------------------
  // Initial provisioning
  // ---------------------------------------------------------------------------

  /** What the board provides: measured trim codes, and the constants compiled in. */
  datatype Board = Board(trim: seq<Word>, romVersion: Word, partitions: seq<Word>, targets: seq<Word>) {
    ghost predicate Valid() {
      |trim| == TRIM_WORDS && |partitions| == PARTITIONS * PARTITION_WORDS && |targets| == TARGETS * TARGET_WORDS
    }
  }

  /** The shadow after the initial values have been filled in. */
  function Provisioned(shadow: Record, board: Board): Record
    requires board.Valid()
  {
    board.trim + [board.romVersion] + shadow[TRIM_WORDS + 1..PARTITIONS_AT]
    + board.partitions + board.targets + shadow[TARGETS_AT + TARGETS * TARGET_WORDS..]
  }

  /** Everything a boot asks of the flash; `initial` is the record it would
      provision a blank section with.  A boot that halts asks nothing. */
  function BootOps(image: Image, initial: Record): seq<FlashOp>
    requires HasCopies(image)
  {
    if Survives(image) then SanitizeOps(image)
    else if SectionBlank(image) then WritebackOps(initial) + SanitizePartitionsOps(initial)
    else []
  }

  /** The record a boot that does not halt starts from. */
  function BootRecord(image: Image, initial: Record): Record
    requires HasCopies(image)
  {
    if Survives(image) then Survivor(image) else initial
  }

  // Filling the fields in one after the other.
  lemma FillsIn(shadow: Record, board: Board)
    requires board.Valid()
    ensures var a := board.trim + shadow[TRIM_WORDS..];
      var b := a[TRIM_WORDS := board.romVersion];
      var c := b[..TARGETS_AT] + board.targets + b[TARGETS_AT + TARGETS * TARGET_WORDS..];
      c[..PARTITIONS_AT] + board.partitions + c[TARGETS_AT..] == Provisioned(shadow, board)
  {
    var b := (board.trim + shadow[TRIM_WORDS..])[TRIM_WORDS := board.romVersion];
    var c := b[..TARGETS_AT] + board.targets + b[TARGETS_AT + TARGETS * TARGET_WORDS..];
    assert b == board.trim + [board.romVersion] + shadow[TRIM_WORDS + 1..];
    assert c[..PARTITIONS_AT] == b[..PARTITIONS_AT]
      == board.trim + [board.romVersion] + shadow[TRIM_WORDS + 1..PARTITIONS_AT];
    assert c[TARGETS_AT..] == board.targets + shadow[TARGETS_AT + TARGETS * TARGET_WORDS..];
  }

  // ---------------------------------------------------------------------------
  // The code
  // ---------------------------------------------------------------------------

  // Marking sets clear flags, and changes nothing else.
  lemma {:induction false} MarkedAt(r: Record, n: nat)
    requires n <= PARTITIONS
    ensures var s := MarkConsistent(r, n);
      && (forall i | 0 <= i < n && Inconsistent(r, i) :: s[FlagAt(i)] == TRUE_WORD)
      && (forall k | 0 <= k < RECORD_WORDS && !(exists i | 0 <= i < n :: k == FlagAt(i) && Inconsistent(r, i)) ::
            s[k] == r[k])
  {
    if n == 0 {
    } else {
      MarkedAt(r, n - 1);
    }
  }

  lemma {:induction false} MarkedKeeps(r: Record, n: nat, k: nat)
    requires n <= PARTITIONS && k < RECORD_WORDS
    requires forall i | 0 <= i < n :: k != FlagAt(i)
    ensures MarkConsistent(r, n)[k] == r[k]
  {
    if n == 0 {
    } else {
      MarkedKeeps(r, n - 1, k);
    }
  }

  // Marking earlier partitions leaves later descriptors alone.
  lemma MarkedElsewhere(r: Record, n: nat)
    requires n < PARTITIONS
    ensures var s := MarkConsistent(r, n);
      && Inconsistent(s, n) == Inconsistent(r, n)
      && ErasePartitionOps(s, n) == ErasePartitionOps(r, n)
  {
    hide MarkConsistent, EraseRange, Value;
    var at := PARTITIONS_AT + PARTITION_WORDS * n;
    MarkedKeeps(r, n, at + 1);
    MarkedKeeps(r, n, at + 2);
    MarkedKeeps(r, n, at + 3);
    MarkedKeeps(r, n, FlagAt(n));
  }

  lemma NoPartition(r: Record, image: Image)
    ensures !AnyInconsistent(r, 0) && MarkConsistent(r, 0) == r
    ensures ErasePartitionsOps(r, 0) == [] && ApplyAll(image, []) == image
  {
  }

  lemma OneMorePartition(r: Record, n: nat)
    requires n < PARTITIONS
    ensures FlagAt(n) < RECORD_WORDS
    ensures if Inconsistent(r, n) then
              && AnyInconsistent(r, n + 1)
              && MarkConsistent(r, n + 1) == MarkConsistent(r, n)[FlagAt(n) := TRUE_WORD]
              && ErasePartitionsOps(r, n + 1) == ErasePartitionsOps(r, n) + ErasePartitionOps(r, n)
            else
              && AnyInconsistent(r, n + 1) == AnyInconsistent(r, n)
              && MarkConsistent(r, n + 1) == MarkConsistent(r, n)
              && ErasePartitionsOps(r, n + 1) == ErasePartitionsOps(r, n)
  {
    hide ErasePartitionOps;
  }

  lemma NothingToMark(r: Record, n: nat)
    requires n <= PARTITIONS && !AnyInconsistent(r, n)
    ensures MarkConsistent(r, n) == r
    ensures ErasePartitionsOps(r, n) == []
  {
    if n > 0 {
      NothingToMark(r, n - 1);
    }
  }

  lemma AppendOps(image: Image, before: seq<FlashOp>, done: seq<FlashOp>, more: seq<FlashOp>)
    ensures before + done + more == before + (done + more)
    ensures ApplyAll(ApplyAll(image, done), more) == ApplyAll(image, done + more)
  {
    assert ApplyAll(ApplyAll(image, done), more) == ApplyAll(image, done + more) by {
      ApplyAppend(image, done, more);
    }
    Associative(before, done, more);
  }

  lemma EmptyRange(image: Image, controller: nat, from: nat, end: nat)
    requires end <= from
    ensures EraseRange(controller, from, end) == [] && ApplyAll(image, EraseRange(controller, from, end)) == image
  {
  }

  lemma LongerRange(controller: nat, from: nat, end: nat)
    requires from <= end
    ensures EraseRange(controller, from, end + 1) == EraseRange(controller, from, end) + AcceptedErase(controller, end)
  {
  }

  lemma Associative(a: seq<FlashOp>, b: seq<FlashOp>, c: seq<FlashOp>)
    ensures a + b + c == a + (b + c)
  {
  }

  lemma AfterWrite(image: Image, id: PageId, r: Record)
    requires HasCopies(image) && id in image
    ensures var after := ApplyAll(image, WriteOps(id, r));
      && after == image[id := PageAfter(r)]
      && RecordOf(after[id]) == r
  {
    WriteWhole(image, id, r);
    assert RecordOf(PageAfter(r)) == r;
  }

  lemma ApplyAccepted(image: Image, controller: nat, page: nat)
    ensures ApplyAll(image, AcceptedErase(controller, page))
         == if controller < CONTROLLERS && page <= MAX_PAGE_NUM then Apply(image, Erase(PageId(controller, page))) else image
  {
    if controller < CONTROLLERS && page <= MAX_PAGE_NUM {
      ApplyOne(image, [], Erase(PageId(controller, page)));
      assert [] + [Erase(PageId(controller, page))] == AcceptedErase(controller, page);
    }
  }

  // A blank copy is not intact: no checksum has its upper half set.
  lemma BlankNotIntact(r: Record)
    requires r[CRC_WORD] == BLANK_WORD
    ensures !Intact(r)
  {
    assert BLANK_WORD[0] && !Checksum(r)[0];
  }

  class BlDataStore {
    const flash: FlashDevice
    /** The RAM copy. */
    var shadow: Record

    constructor (flash: FlashDevice, shadow: Record)
      ensures this.flash == flash && this.shadow == shadow
    {
      this.flash := flash;
      this.shadow := shadow;
    }

    ghost predicate Valid()
      reads this, flash
    {
      flash.Valid()
    }

    /** Rewrite one of the two pages of the section. */
    method Copy(data: Record, id: PageId)
      requires Valid()
      requires id == MAIN || id == BACKUP
      modifies flash
      ensures Valid()
      ensures flash.log == old(flash.log) + WriteOps(id, data)
      ensures flash.pages == ApplyAll(old(flash.pages), WriteOps(id, data))
    {
      var rc := flash.PageWrite(id.controller, id.page, data);
    }

    /** A page erase whose result is not looked at. */
    method ErasePage(controller: nat, page: nat)
      requires Valid()
      modifies flash
      ensures Valid()
      ensures flash.log == old(flash.log) + AcceptedErase(controller, page)
      ensures flash.pages == ApplyAll(old(flash.pages), AcceptedErase(controller, page))
    {
      ApplyAccepted(flash.pages, controller, page);
      var rc := flash.PageErase(controller, page);
    }

    /** Erase all the pages of a partition. */
    method ErasePartition(i: nat)
      requires Valid()
      requires i < PARTITIONS
      modifies flash
      ensures Valid()
      ensures flash.log == old(flash.log) + ErasePartitionOps(shadow, i)
      ensures flash.pages == ApplyAll(old(flash.pages), ErasePartitionOps(shadow, i))
    {
      var first := FirstPage(shadow, i);
      ErasePages(Controller(shadow, i), first, (first + NumPages(shadow, i)) % UINT32);
    }

    /** The loop over the pages of one range. */
    method ErasePages(controller: nat, first: nat, end: nat)
      requires Valid()
      modifies flash
      ensures Valid()
      ensures flash.log == old(flash.log) + EraseRange(controller, first, end)
      ensures flash.pages == ApplyAll(old(flash.pages), EraseRange(controller, first, end))
    {
      hide *;
      ghost var image, logged := flash.pages, flash.log;
      var page := first;
      EmptyRange(image, controller, first, first);
      if end <= first {
        EmptyRange(image, controller, first, end);
      }
      while page < end
        invariant first <= page && (page <= end || page == first)
        invariant Valid()
        invariant flash.log == logged + EraseRange(controller, first, page)
        invariant flash.pages == ApplyAll(image, EraseRange(controller, first, page))
      {
        ErasePage(controller, page);
        AppendOps(image, logged, EraseRange(controller, first, page), AcceptedErase(controller, page));
        LongerRange(controller, first, page);
        page := page + 1;
      }
    }

    /** Erase what is marked inconsistent, and mark it consistent in RAM. */
    method SanitizePartitions() returns (writeback: bool)
      requires Valid()
      modifies this, flash
      ensures Valid()
      ensures writeback == AnyInconsistent(old(shadow), PARTITIONS)
      ensures shadow == MarkConsistent(old(shadow), PARTITIONS)
      ensures flash.log == old(flash.log) + ErasePartitionsOps(old(shadow), PARTITIONS)
      ensures flash.pages == ApplyAll(old(flash.pages), ErasePartitionsOps(old(shadow), PARTITIONS))
    {
      hide ErasePartitionOps, ErasePartitionsOps, MarkConsistent, AnyInconsistent, Inconsistent, ApplyAll, FlagAt,
        FlashDevice.Valid;
      ghost var r, image, logged := shadow, flash.pages, flash.log;
      NoPartition(r, image);
      writeback := false;
      var i := 0;
      while i < PARTITIONS
        invariant 0 <= i <= PARTITIONS
        invariant Valid()
        invariant writeback == AnyInconsistent(r, i)
        invariant shadow == MarkConsistent(r, i)
        invariant flash.log == logged + ErasePartitionsOps(r, i)
        invariant flash.pages == ApplyAll(image, ErasePartitionsOps(r, i))
      {
        MarkedElsewhere(r, i);
        OneMorePartition(r, i);
        if Inconsistent(shadow, i) {
          ErasePartition(i);
          AppendOps(image, logged, ErasePartitionsOps(r, i), ErasePartitionOps(r, i));
          shadow := shadow[FlagAt(i) := TRUE_WORD];
          writeback := true;
        }
        i := i + 1;
      }
    }

    /** Whether the check of the section never returns. */
    method LoopIfNotBlank() returns (stuck: bool)
      requires Valid()
      ensures stuck == !SectionBlank(flash.pages)
    {
      var ptr := 0;
      while ptr < 2 * PAGE_WORDS
        invariant 0 <= ptr <= 2 * PAGE_WORDS
        invariant forall k | 0 <= k < ptr && k < PAGE_WORDS :: flash.pages[MAIN][k] == BLANK_WORD
        invariant forall k | 0 <= k < ptr - PAGE_WORDS :: flash.pages[BACKUP][k] == BLANK_WORD
      {
        var word := if ptr < PAGE_WORDS then flash.pages[MAIN][ptr] else flash.pages[BACKUP][ptr - PAGE_WORDS];
        if word != BLANK_WORD {
          assert Blanks(PAGE_WORDS)[if ptr < PAGE_WORDS then ptr else ptr - PAGE_WORDS] == BLANK_WORD;
          return true;
        }
        ptr := ptr + 1;
      }
      assert flash.pages[MAIN] == Blanks(PAGE_WORDS) && flash.pages[BACKUP] == Blanks(PAGE_WORDS);
      return false;
    }

    /** Store the RAM copy in both pages. */
    method ShadowWriteback()
      requires Valid()
      modifies this, flash
      ensures Valid()
      ensures shadow == Seal(old(shadow))
      ensures flash.log == old(flash.log) + WritebackOps(shadow)
      ensures flash.pages == ApplyAll(old(flash.pages), WritebackOps(shadow))
      ensures MainRecord(flash.pages) == BackupRecord(flash.pages) == shadow
    {
      var crc := Crc16.Crc16Ccitt(BytesOf(shadow[..CRC_WORD]));
      shadow := shadow[CRC_WORD := Crc16.Widen(crc)];
      Copy(shadow, MAIN);
      AfterWrite(old(flash.pages), MAIN, shadow);
      ghost var half := flash.pages;
      Copy(shadow, BACKUP);
      AfterWrite(half, BACKUP, shadow);
      AppendOps(old(flash.pages), old(flash.log), WriteOps(MAIN, shadow), WriteOps(BACKUP, shadow));
    }

    /** First boot: fill the RAM copy in and store it. */
    method Init(board: Board)
      requires Valid() && board.Valid()
      modifies this, flash
      ensures Valid()
      ensures shadow == Seal(Provisioned(old(shadow), board))
      ensures flash.log == old(flash.log) + WritebackOps(shadow)
      ensures flash.pages == ApplyAll(old(flash.pages), WritebackOps(shadow))
      ensures MainRecord(flash.pages) == BackupRecord(flash.pages) == shadow
    {
      FillsIn(shadow, board);
      shadow := board.trim + shadow[TRIM_WORDS..];
      shadow := shadow[TRIM_WORDS := board.romVersion];
      shadow := shadow[..TARGETS_AT] + board.targets + shadow[TARGETS_AT + TARGETS * TARGET_WORDS..];
      shadow := shadow[..PARTITIONS_AT] + board.partitions + shadow[TARGETS_AT..];
      hide Provisioned, Intact;
      ShadowWriteback();
    }

    /** The boot-time repair.  `halted` stands for the endless loop. */
    method Sanitize(board: Board) returns (halted: bool)
      requires Valid() && board.Valid()
      modifies this, flash
      ensures Valid()
      ensures halted == Halts(old(flash.pages))
      ensures var initial := Seal(Provisioned(old(shadow), board));
        && flash.log == old(flash.log) + BootOps(old(flash.pages), initial)
        && flash.pages == ApplyAll(old(flash.pages), BootOps(old(flash.pages), initial))
        && shadow == if halted then old(shadow) else Repaired(BootRecord(old(flash.pages), initial))
    {
      ghost var image := flash.pages;
      var main, backup := RecordOf(flash.pages[MAIN]), RecordOf(flash.pages[BACKUP]);
      var crcMain := Crc16.Crc16Ccitt(BytesOf(main[..CRC_WORD]));
      var crcBackup := Crc16.Crc16Ccitt(BytesOf(backup[..CRC_WORD]));
      ghost var done: seq<FlashOp> := [];
      if main[CRC_WORD] != Crc16.Widen(crcMain) {
        if backup[CRC_WORD] != Crc16.Widen(crcBackup) {
          var stuck := LoopIfNotBlank();
          if stuck {
            return true;
          }
          Init(board);
          done := WritebackOps(shadow);
        } else {
          Copy(backup, MAIN);
          AfterWrite(image, MAIN, backup);
          done := WriteOps(MAIN, backup);
        }
      } else if main != backup {
        Copy(main, BACKUP);
        AfterWrite(image, BACKUP, main);
        done := WriteOps(BACKUP, main);
      }
      if SectionBlank(image) {
        BlankNotIntact(main);
        BlankNotIntact(backup);
      }
      Finish(image, old(flash.log), done);
      return false;
    }

    /** The second part of the repair: take the main copy into RAM, and sanitize
        the partitions. */
    method Finish(ghost image: Image, ghost logged: seq<FlashOp>, ghost done: seq<FlashOp>)
      requires Valid()
      requires flash.log == logged + done && flash.pages == ApplyAll(image, done)
      requires Intact(MainRecord(flash.pages))
      modifies this, flash
      ensures Valid()
      ensures shadow == Repaired(old(MainRecord(flash.pages)))
      ensures flash.log == logged + (done + SanitizePartitionsOps(old(MainRecord(flash.pages))))
      ensures flash.pages == ApplyAll(image, done + SanitizePartitionsOps(old(MainRecord(flash.pages))))
    {
      shadow := RecordOf(flash.pages[MAIN]);
      ghost var r := shadow;
      ghost var erases := ErasePartitionsOps(r, PARTITIONS);
      var writeback := SanitizePartitions();
      AppendOps(image, logged, done, erases);
      if writeback {
        ShadowWriteback();
        assert shadow == Repaired(r);
        AppendOps(image, logged, done + erases, WritebackOps(shadow));
        Associative(done, erases, WritebackOps(shadow));
      } else {
        NothingToMark(r, PARTITIONS);
        assert erases + [] == erases;
      }
    }
  }
}
