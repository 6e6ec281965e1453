/** Power failures against the bootloader data: what can be in flash after an
    operation has been cut anywhere, and what the following boots make of it.

    A request that is running when the power fails is torn.  A torn program has
    cleared some of the bits it was to clear.  A torn erase of a copy leaves the
    page as it was, or holding anything that is not an intact record; a torn
    erase of any other page leaves anything. */
module BlDataCrash {
  import opened Bits
  import opened Flash
  import opened BlData

  // ---------------------------------------------------------------------------
  // Cut operations
  // ---------------------------------------------------------------------------

  /** `word` lies between `was` and the result of programming `data` over it. */
  ghost predicate Between(was: Word, data: Word, word: Word) {
    && (forall j | 0 <= j < 32 :: word[j] ==> was[j])
    && (forall j | 0 <= j < 32 :: was[j] && data[j] ==> word[j])
  }

  /** `cut` is what a request that was running at the power failure may leave. */
  ghost predicate Torn(image: Image, op: FlashOp, cut: Image) {
    && cut.Keys == image.Keys
    && (forall id | id in image && id != op.id :: cut[id] == image[id])
    && (op.id in image ==>
      if op.Erase? then
        op.id == MAIN || op.id == BACKUP ==> cut[op.id] == image[op.id] || !Intact(RecordOf(cut[op.id]))
      else if op.index < PAGE_WORDS then
        exists word: Word :: Between(image[op.id][op.index], op.data, word) && cut[op.id] == image[op.id][op.index := word]
      else
        cut[op.id] == image[op.id])
  }

  /** `cut` may be in flash when a list of requests is stopped at some point:
      between two of them, or inside one. */
  ghost predicate CutAt(image: Image, ops: seq<FlashOp>, cut: Image, k: nat) {
    && k <= |ops|
    && (cut == ApplyAll(image, ops[..k]) || (k < |ops| && Torn(ApplyAll(image, ops[..k]), ops[k], cut)))
  }

  ghost predicate Cut(image: Image, ops: seq<FlashOp>, cut: Image) {
    exists k: nat :: CutAt(image, ops, cut, k)
  }

  /** Power may fail between any two requests; inside a program, with any of the bits it
      was to clear cleared; and inside an erase, with anything on the page, but that
      a record page not left as it was does not read as an intact record. */
  lemma EveryCutCounts(image: Image, ops: seq<FlashOp>, k: nat, page: Page, word: Word)
    requires k <= |ops|
    ensures var now := ApplyAll(image, ops[..k]);
      && Cut(image, ops, now)
      && (k < |ops| && ops[k].id in image ==>
            var op := ops[k];
            && (op.Erase? && ((op.id != PageId(0, 94) && op.id != PageId(0, 95))
                              || page == now[op.id] || !Intact(RecordOf(page))) ==>
                  Cut(image, ops, now[op.id := page]))
            && (op.Program? && op.index < PAGE_WORDS
                && (forall j | 0 <= j < 32 ::
                      && (word[j] ==> now[op.id][op.index][j])
                      && (now[op.id][op.index][j] && op.data[j] ==> word[j])) ==>
                  Cut(image, ops, now[op.id := now[op.id][op.index := word]])))
  {
    hide ApplyAll, Intact;
    var now := ApplyAll(image, ops[..k]);
    assert CutAt(image, ops, now, k);
    if k < |ops| && ops[k].id in image {
      var op := ops[k];
      if op.Erase? {
        assert Torn(now, op, now[op.id := page]) ==> CutAt(image, ops, now[op.id := page], k);
      } else if op.index < PAGE_WORDS {
        var torn := now[op.id := now[op.id][op.index := word]];
        assert Between(now[op.id][op.index], op.data, word) ==> Torn(now, op, torn);
        assert Torn(now, op, torn) ==> CutAt(image, ops, torn, k);
      }
    }
  }

  // A cut of two lists in a row cuts the first, or the second after the first.
  lemma CutAppend(image: Image, first: seq<FlashOp>, second: seq<FlashOp>, cut: Image)
    requires Cut(image, first + second, cut)
    ensures Cut(image, first, cut) || Cut(ApplyAll(image, first), second, cut)
  {
    var ops := first + second;
    var k: nat :| CutAt(image, ops, cut, k);
    if k < |first| {
      assert ops[..k] == first[..k];
      assert CutAt(image, first, cut, k);
    } else {
      assert ops[..k] == first + second[..k - |first|];
      ApplyAppend(image, first, second[..k - |first|]);
      assert CutAt(ApplyAll(image, first), second, cut, k - |first|);
    }
  }

  lemma CutNothing(image: Image, cut: Image)
    requires Cut(image, [], cut)
    ensures cut == image
  {
  }

  // ---------------------------------------------------------------------------
  // One torn copy
  // ---------------------------------------------------------------------------

  // The checksum field is programmed last, and reads all ones until then.
  lemma PrefixNotIntact(data: seq<Word>)
    requires |data| <= CRC_WORD
    ensures !Intact(RecordOf(PageAfter(data)))
  {
    BlankNotIntact(RecordOf(PageAfter(data)));
  }

  lemma BlankNotChecksum(r: Record)
    requires Intact(r)
    ensures r[CRC_WORD] != BLANK_WORD
  {
    if r[CRC_WORD] == BLANK_WORD {
      BlankNotIntact(r);
    }
  }

  lemma TornWord(data: seq<Word>, r: Record, word: Word, page: Page)
    requires |data| < RECORD_WORDS && data == r[..|data|]
    requires Intact(r)
    requires page == PageAfter(data)[|data| := word]
    ensures Intact(RecordOf(page)) <==> |data| == CRC_WORD && word == r[CRC_WORD]
    ensures Intact(RecordOf(page)) ==> RecordOf(page) == r
  {
    var got := RecordOf(page);
    if |data| < CRC_WORD {
      BlankNotIntact(got);
    } else {
      assert got[..CRC_WORD] == r[..CRC_WORD];
      if word == r[CRC_WORD] {
        assert got == r;
      }
    }
  }

  // Stopped between two words.
  lemma CutBetweenWords(r: Record, n: nat, page: Page)
    requires n < RECORD_WORDS && Intact(r) && page == PageAfter(r[..n])
    ensures !Intact(RecordOf(page)) && page[CRC_WORD] != r[CRC_WORD]
  {
    hide Checksum, Value, And;
    PrefixNotIntact(r[..n]);
    BlankNotChecksum(r);
  }

  // Stopped inside word n.
  lemma CutInsideWord(r: Record, n: nat, word: Word, page: Page)
    requires n < RECORD_WORDS && Intact(r) && page == PageAfter(r[..n])[n := word]
    ensures Intact(RecordOf(page)) <==> n == CRC_WORD && page[CRC_WORD] == r[CRC_WORD]
    ensures Intact(RecordOf(page)) ==> RecordOf(page) == r
  {
    hide Checksum, Value, And;
    TornWord(r[..n], r, word, page);
    if n < CRC_WORD {
      BlankNotChecksum(r);
    }
  }

  // What a cut after k requests has done to the page.
  lemma CutWriteAt(image: Image, id: PageId, r: Record, cut: Image, k: nat) returns (word: Word)
    requires id in image && 1 <= k <= RECORD_WORDS && CutAt(image, WriteOps(id, r), cut, k)
    ensures cut.Keys == image.Keys
    ensures forall other | other in image && other != id :: cut[other] == image[other]
    ensures cut[id] == PageAfter(r[..k - 1]) || cut[id] == PageAfter(r[..k - 1])[k - 1 := word]
  {
    WritePrefix(image, id, r, k - 1);
    hide ApplyAll, PageAfter, Between;
    var before := image[id := PageAfter(r[..k - 1])];
    word := BLANK_WORD;
    if cut != before {
      word :| Between(before[id][k - 1], r[k - 1], word) && cut[id] == before[id][k - 1 := word];
    }
  }

  /** A page write that is stopped before its last word is complete is never
      intact, whatever was being written. */
  lemma ProperPrefixNeverIntact(image: Image, id: PageId, r: Record, cut: Image, k: nat)
    requires id == MAIN || id == BACKUP
    requires id in image && Intact(r)
    requires 1 <= k <= RECORD_WORDS
    requires CutAt(image, WriteOps(id, r), cut, k)
    ensures cut.Keys == image.Keys
    ensures forall other | other in image && other != id :: cut[other] == image[other]
    ensures Intact(RecordOf(cut[id])) <==> k == RECORD_WORDS && cut[id][CRC_WORD] == r[CRC_WORD]
    ensures Intact(RecordOf(cut[id])) ==> RecordOf(cut[id]) == r
  {
    hide Intact, RecordOf, PageAfter, CutAt, WriteOps;
    var word := CutWriteAt(image, id, r, cut, k);
    if cut[id] == PageAfter(r[..k - 1]) {
      CutBetweenWords(r, k - 1, cut[id]);
    } else {
      CutInsideWord(r, k - 1, word, cut[id]);
    }
  }

  /** A page write cut anywhere, even inside a word, leaves a page that is the
      old one, or not intact, or the complete new record.  No assumption is made
      about checksum collisions, and none about the contents. */
  lemma TornCopy(image: Image, id: PageId, r: Record, cut: Image)
    requires id == MAIN || id == BACKUP
    requires id in image && Intact(r)
    requires Cut(image, WriteOps(id, r), cut)
    ensures cut.Keys == image.Keys
    ensures forall other | other in image && other != id :: cut[other] == image[other]
    ensures cut[id] == image[id] || !Intact(RecordOf(cut[id])) || RecordOf(cut[id]) == r
  {
    var ops := WriteOps(id, r);
    var k: nat :| CutAt(image, ops, cut, k);
    if k == 0 {
      assert ops[..0] == [];
    } else if k <= RECORD_WORDS {
      ProperPrefixNeverIntact(image, id, r, cut, k);
    } else {
      assert ops[..k] == ops;
      WriteWhole(image, id, r);
      assert RecordOf(PageAfter(r)) == r;
    }
  }

  // ---------------------------------------------------------------------------
  // The surviving record under each operation
  // ---------------------------------------------------------------------------

  /** Both copies are intact and equal to r. */
  ghost predicate Both(image: Image, r: Record) {
    HasCopies(image) && Intact(r) && MainRecord(image) == r && BackupRecord(image) == r
  }

  ghost predicate SurvivesAs(image: Image, r: Record) {
    HasCopies(image) && Survives(image) && Survivor(image) == r
  }

  /** Making the copies agree never changes the surviving record. */
  lemma CutRestore(image: Image, r: Record, cut: Image)
    requires SurvivesAs(image, r)
    requires Cut(image, RestoreOps(image), cut)
    ensures SurvivesAs(cut, r)
  {
    if !Intact(MainRecord(image)) {
      TornCopy(image, MAIN, r, cut);
    } else if MainRecord(image) != BackupRecord(image) {
      TornCopy(image, BACKUP, r, cut);
    } else {
      CutNothing(image, cut);
    }
  }

  lemma AfterRestore(image: Image, r: Record)
    requires SurvivesAs(image, r)
    ensures var after := ApplyAll(image, RestoreOps(image));
      && Both(after, r)
      && (forall id | id in image && id != MAIN && id != BACKUP :: after[id] == image[id])
  {
    if !Intact(MainRecord(image)) {
      AfterWrite(image, MAIN, r);
    } else if MainRecord(image) != BackupRecord(image) {
      AfterWrite(image, BACKUP, r);
    }
  }

  /** A writeback moves the surviving record from the old one to the new one at
      one instant, and never loses it. */
  lemma CutWriteback(image: Image, was: Record, r: Record, cut: Image)
    requires Both(image, was) && Intact(r)
    requires Cut(image, WritebackOps(r), cut)
    ensures SurvivesAs(cut, was) || SurvivesAs(cut, r)
    ensures cut.Keys == image.Keys
    ensures forall id | id in image && id != MAIN && id != BACKUP :: cut[id] == image[id]
  {
    hide Intact, RecordOf, Cut, WriteOps, ApplyAll, PageAfter;
    CutAppend(image, WriteOps(MAIN, r), WriteOps(BACKUP, r), cut);
    if Cut(image, WriteOps(MAIN, r), cut) {
      TornCopy(image, MAIN, r, cut);
    } else {
      AfterWrite(image, MAIN, r);
      TornCopy(ApplyAll(image, WriteOps(MAIN, r)), BACKUP, r, cut);
    }
  }

  lemma AfterWriteback(image: Image, r: Record)
    requires HasCopies(image) && Intact(r)
    ensures var after := ApplyAll(image, WritebackOps(r));
      && Both(after, r)
      && (forall id | id in image && id != MAIN && id != BACKUP :: after[id] == image[id])
  {
    AfterWrite(image, MAIN, r);
    AfterWrite(ApplyAll(image, WriteOps(MAIN, r)), BACKUP, r);
    ApplyAppend(image, WriteOps(MAIN, r), WriteOps(BACKUP, r));
  }

  // ---------------------------------------------------------------------------
  // Partition erases
  // ---------------------------------------------------------------------------

  /** None of the requests touches a copy of the record. */
  ghost predicate Elsewhere(ops: seq<FlashOp>) {
    forall op | op in ops :: op.id != MAIN && op.id != BACKUP
  }

  lemma {:induction false} ElsewhereKeeps(image: Image, ops: seq<FlashOp>)
    requires HasCopies(image) && Elsewhere(ops)
    ensures ApplyAll(image, ops)[MAIN] == image[MAIN] && ApplyAll(image, ops)[BACKUP] == image[BACKUP]
    decreases |ops|
  {
    if ops == [] {
    } else {
      ElsewhereKeeps(image, ops[..|ops| - 1]);
    }
  }

  lemma CutElsewhere(image: Image, ops: seq<FlashOp>, cut: Image)
    requires HasCopies(image) && Elsewhere(ops) && Cut(image, ops, cut)
    ensures HasCopies(cut) && cut[MAIN] == image[MAIN] && cut[BACKUP] == image[BACKUP]
  {
    var k: nat :| CutAt(image, ops, cut, k);
    ElsewhereKeeps(image, ops[..k]);
  }

  lemma {:induction false} EraseRangeIds(controller: nat, from: nat, end: nat)
    ensures forall op | op in EraseRange(controller, from, end) ::
      op.Erase? && op.id.controller == controller && from <= op.id.page < end
    ensures controller < CONTROLLERS && end <= MAX_PAGE_NUM + 1 ==>
      forall page: nat | from <= page < end :: Erase(PageId(controller, page)) in EraseRange(controller, from, end)
    decreases end
  {
    if from >= end {
    } else {
      EraseRangeIds(controller, from, end - 1);
      assert EraseRange(controller, from, end) == EraseRange(controller, from, end - 1) + AcceptedErase(controller, end - 1);
    }
  }

  // With good geometry the 32-bit end of a partition does not wrap.
  lemma PartitionIds(r: Record, i: nat)
    requires i < PARTITIONS && GoodGeometry(r)
    ensures forall op | op in ErasePartitionOps(r, i) :: op.Erase? && Covers(r, i, op.id)
    ensures forall id | Covers(r, i, id) :: Erase(id) in ErasePartitionOps(r, i)
  {
    hide Value, EraseRange;
    EraseRangeIds(Controller(r, i), FirstPage(r, i), FirstPage(r, i) + NumPages(r, i));
  }

  /** Page `id` belongs to one of the first n partitions that are inconsistent. */
  ghost predicate Doomed(r: Record, n: nat, id: PageId)
    requires n <= PARTITIONS
  {
    exists i | 0 <= i < n :: Inconsistent(r, i) && Covers(r, i, id)
  }

  lemma {:induction false} PartitionsIds(r: Record, n: nat)
    requires n <= PARTITIONS && GoodGeometry(r)
    ensures forall op | op in ErasePartitionsOps(r, n) :: op.Erase? && Doomed(r, n, op.id)
    ensures forall id | Doomed(r, n, id) :: Erase(id) in ErasePartitionsOps(r, n)
    ensures Elsewhere(ErasePartitionsOps(r, n))
  {
    hide Value, Covers, ErasePartitionOps, Inconsistent;
    if n == 0 {
    } else {
      PartitionsIds(r, n - 1);
      PartitionIds(r, n - 1);
    }
  }

  // A list of erases blanks the pages it names, and no other.
  lemma {:induction false} ErasesBlank(image: Image, ops: seq<FlashOp>)
    requires forall op | op in ops :: op.Erase?
    ensures forall id | id in image ::
      ApplyAll(image, ops)[id] == if Erase(id) in ops then Blanks(PAGE_WORDS) else image[id]
    decreases |ops|
  {
    if ops == [] {
    } else {
      ErasesBlank(image, ops[..|ops| - 1]);
      assert ops == ops[..|ops| - 1] + [ops[|ops| - 1]];
    }
  }

  // ---------------------------------------------------------------------------
  // A whole repair
  // ---------------------------------------------------------------------------

  /** s is r with the flags of inconsistent partitions set, and a new checksum if
      there were any. */
  ghost predicate RepairOf(r: Record, s: Record) {
    && !AnyInconsistent(s, PARTITIONS)
    && (AnyInconsistent(r, PARTITIONS) || s == r)
    && (forall k | 0 <= k < CRC_WORD && !(exists i | 0 <= i < PARTITIONS :: k == FlagAt(i) && Inconsistent(r, i)) ::
          s[k] == r[k])
    && (forall i | 0 <= i < PARTITIONS && Inconsistent(r, i) :: s[FlagAt(i)] == TRUE_WORD)
  }

  lemma SealedMarks(r: Record)
    ensures RepairOf(r, Seal(MarkConsistent(r, PARTITIONS))) || !AnyInconsistent(r, PARTITIONS)
  {
    MarkedAt(r, PARTITIONS);
    var marked := MarkConsistent(r, PARTITIONS);
    var s := Seal(marked);
    assert forall k | 0 <= k < CRC_WORD :: s[k] == s[..CRC_WORD][k] == marked[..CRC_WORD][k] == marked[k];
    assert TRUE_WORD[31] && !FALSE_WORD[31];
    assert forall i | 0 <= i < PARTITIONS :: !Inconsistent(s, i);
  }

  lemma RepairKeepsGeometry(r: Record, s: Record)
    requires RepairOf(r, s) && GoodGeometry(r)
    ensures GoodGeometry(s)
  {
    hide Value, Inconsistent;
    forall i | 0 <= i < PARTITIONS
      ensures Controller(s, i) == Controller(r, i) && FirstPage(s, i) == FirstPage(r, i) && NumPages(s, i) == NumPages(r, i)
    {
    }
  }

  lemma RepairedIs(r: Record)
    requires Intact(r)
    ensures Intact(Repaired(r)) && RepairOf(r, Repaired(r))
    ensures GoodGeometry(r) ==> GoodGeometry(Repaired(r))
    ensures Repaired(Repaired(r)) == Repaired(r)
  {
    if AnyInconsistent(r, PARTITIONS) {
      SealedMarks(r);
      if GoodGeometry(r) {
        RepairKeepsGeometry(r, Repaired(r));
      }
    }
  }

  /** The pages outside the section after the inconsistent partitions are erased. */
  ghost predicate PartitionsErased(image: Image, r: Record, after: Image) {
    && after.Keys == image.Keys
    && forall id | id in image && id != MAIN && id != BACKUP ::
         after[id] == if Doomed(r, PARTITIONS, id) then Blanks(PAGE_WORDS) else image[id]
  }

  lemma AfterErases(image: Image, r: Record)
    requires HasCopies(image) && GoodGeometry(r)
    ensures var after := ApplyAll(image, ErasePartitionsOps(r, PARTITIONS));
      && PartitionsErased(image, r, after)
      && after[MAIN] == image[MAIN] && after[BACKUP] == image[BACKUP]
  {
    var ops := ErasePartitionsOps(r, PARTITIONS);
    PartitionsIds(r, PARTITIONS);
    ErasesBlank(image, ops);
    ElsewhereKeeps(image, ops);
  }

  lemma AfterSanitizePartitions(image: Image, r: Record)
    requires Both(image, r) && GoodGeometry(r)
    ensures var after := ApplyAll(image, SanitizePartitionsOps(r));
      && Both(after, Repaired(r))
      && PartitionsErased(image, r, after)
  {
    var erases := ErasePartitionsOps(r, PARTITIONS);
    AfterErases(image, r);
    if AnyInconsistent(r, PARTITIONS) {
      RepairedIs(r);
      AfterWriteback(ApplyAll(image, erases), Repaired(r));
      ApplyAppend(image, erases, WritebackOps(Repaired(r)));
    } else {
      assert erases + [] == erases;
    }
  }

  /** A repair that runs to its end leaves both copies equal to the surviving
      record with its flags repaired, every inconsistent partition erased, and
      every other page as it was. */
  lemma SanitizeCompletes(image: Image, r: Record)
    requires SurvivesAs(image, r) && GoodGeometry(r)
    ensures var after := ApplyAll(image, SanitizeOps(image));
      && Both(after, Repaired(r)) && RepairOf(r, Repaired(r))
      && PartitionsErased(image, r, after)
  {
    AfterRestore(image, r);
    var restored := ApplyAll(image, RestoreOps(image));
    AfterSanitizePartitions(restored, r);
    ApplyAppend(image, RestoreOps(image), SanitizePartitionsOps(r));
    RepairedIs(r);
  }

  /** All that may have changed outside the section part-way through a repair. */
  ghost predicate OnlyDoomedTouched(image: Image, r: Record, cut: Image) {
    && cut.Keys == image.Keys
    && forall id | id in image && id != MAIN && id != BACKUP && !Doomed(r, PARTITIONS, id) :: cut[id] == image[id]
  }

  lemma CutErases(image: Image, r: Record, cut: Image)
    requires HasCopies(image) && GoodGeometry(r)
    requires Cut(image, ErasePartitionsOps(r, PARTITIONS), cut)
    ensures OnlyDoomedTouched(image, r, cut)
    ensures cut[MAIN] == image[MAIN] && cut[BACKUP] == image[BACKUP]
  {
    hide GoodGeometry, Value, EraseRange;
    var ops := ErasePartitionsOps(r, PARTITIONS);
    PartitionsIds(r, PARTITIONS);
    CutElsewhere(image, ops, cut);
    var k: nat :| CutAt(image, ops, cut, k);
    ErasesBlank(image, ops[..k]);
    assert forall op | op in ops[..k] :: op in ops;
  }

  lemma CutSanitizePartitions(image: Image, r: Record, cut: Image)
    requires Both(image, r) && GoodGeometry(r)
    requires Cut(image, SanitizePartitionsOps(r), cut)
    ensures SurvivesAs(cut, r) || (SurvivesAs(cut, Repaired(r)) && PartitionsErased(image, r, cut))
    ensures OnlyDoomedTouched(image, r, cut)
  {
    hide Covers, Inconsistent, ErasePartitionsOps, WritebackOps, Doomed, AnyInconsistent, GoodGeometry, RepairOf,
      Intact, RecordOf, Cut, ApplyAll;
    var erases := ErasePartitionsOps(r, PARTITIONS);
    var writeback := if AnyInconsistent(r, PARTITIONS) then WritebackOps(Repaired(r)) else [];
    CutAppend(image, erases, writeback, cut);
    if Cut(image, erases, cut) {
      CutErases(image, r, cut);
    } else {
      AfterErases(image, r);
      RepairedIs(r);
      if AnyInconsistent(r, PARTITIONS) {
        CutWriteback(ApplyAll(image, erases), r, Repaired(r), cut);
      } else {
        CutNothing(ApplyAll(image, erases), cut);
      }
    }
  }

  /** A repair that is cut anywhere leaves the surviving record as it was, or
      repaired; and it is repaired only after the erases have finished. */
  lemma SanitizeCut(image: Image, r: Record, cut: Image)
    requires SurvivesAs(image, r) && GoodGeometry(r)
    requires Cut(image, SanitizeOps(image), cut)
    ensures SurvivesAs(cut, r) || (SurvivesAs(cut, Repaired(r)) && PartitionsErased(image, r, cut))
    ensures OnlyDoomedTouched(image, r, cut)
  {
    CutAppend(image, RestoreOps(image), SanitizePartitionsOps(r), cut);
    if Cut(image, RestoreOps(image), cut) {
      CutRestore(image, r, cut);
      CutRestoreElsewhere(image, r, cut);
    } else {
      AfterRestore(image, r);
      CutSanitizePartitions(ApplyAll(image, RestoreOps(image)), r, cut);
    }
  }

  lemma CutRestoreElsewhere(image: Image, r: Record, cut: Image)
    requires SurvivesAs(image, r)
    requires Cut(image, RestoreOps(image), cut)
    ensures OnlyDoomedTouched(image, r, cut)
  {
    if !Intact(MainRecord(image)) {
      TornCopy(image, MAIN, r, cut);
    } else if MainRecord(image) != BackupRecord(image) {
      TornCopy(image, BACKUP, r, cut);
    } else {
      CutNothing(image, cut);
    }
  }

  /** No intact copy in flash shows a flag consistent, unless it showed that before,
      until every page of its partition is blank. */
  lemma FlagFollowsErase(image: Image, r: Record, cut: Image, i: nat, id: PageId, copy: PageId)
    requires SurvivesAs(image, r) && GoodGeometry(r)
    requires Cut(image, SanitizeOps(image), cut)
    requires i < PARTITIONS && Inconsistent(r, i)
    requires id in image && Covers(r, i, id)
    requires copy == MAIN || copy == BACKUP
    ensures HasCopies(cut) && id in cut
    ensures Intact(RecordOf(cut[copy])) && !Inconsistent(RecordOf(cut[copy]), i) ==>
      cut[copy] == image[copy] || cut[id] == Blanks(PAGE_WORDS)
  {
    hide Covers, Inconsistent, Value, Checksum, ErasePartitionsOps, WriteOps;
    CutAppend(image, RestoreOps(image), SanitizePartitionsOps(r), cut);
    if Cut(image, RestoreOps(image), cut) {
      RestoringCopy(image, r, cut, copy);
    } else {
      AfterRestore(image, r);
      FlagWaits(ApplyAll(image, RestoreOps(image)), r, cut, i, id, copy);
    }
  }

  // While the copies are being made equal.
  lemma RestoringCopy(image: Image, r: Record, cut: Image, copy: PageId)
    requires SurvivesAs(image, r) && Cut(image, RestoreOps(image), cut)
    requires copy == MAIN || copy == BACKUP
    ensures cut.Keys == image.Keys
    ensures cut[copy] == image[copy] || !Intact(RecordOf(cut[copy])) || RecordOf(cut[copy]) == r
  {
    hide Checksum, WriteOps;
    if !Intact(MainRecord(image)) {
      TornCopy(image, MAIN, r, cut);
    } else if MainRecord(image) != BackupRecord(image) {
      TornCopy(image, BACKUP, r, cut);
    } else {
      CutNothing(image, cut);
    }
  }

  lemma DoomedPage(r: Record, i: nat, id: PageId)
    requires i < PARTITIONS && Inconsistent(r, i) && Covers(r, i, id) && GoodGeometry(r)
    ensures id != MAIN && id != BACKUP && AnyInconsistent(r, PARTITIONS) && Doomed(r, PARTITIONS, id)
  {
    hide Value;
  }

  // Once the copies are equal.
  lemma FlagWaits(image: Image, r: Record, cut: Image, i: nat, id: PageId, copy: PageId)
    requires Both(image, r) && GoodGeometry(r)
    requires Cut(image, SanitizePartitionsOps(r), cut)
    requires i < PARTITIONS && Inconsistent(r, i)
    requires id in image && Covers(r, i, id)
    requires copy == MAIN || copy == BACKUP
    ensures HasCopies(cut) && id in cut
    ensures RecordOf(cut[copy]) == r || cut[id] == Blanks(PAGE_WORDS)
  {
    var erases := ErasePartitionsOps(r, PARTITIONS);
    DoomedPage(r, i, id);
    CutAppend(image, erases, WritebackOps(Repaired(r)), cut);
    hide *;
    if Cut(image, erases, cut) {
      StillErasing(image, r, cut, id, copy);
    } else {
      Erased(image, r, cut, id);
    }
  }

  lemma StillErasing(image: Image, r: Record, cut: Image, id: PageId, copy: PageId)
    requires Both(image, r) && GoodGeometry(r) && id in image
    requires Cut(image, ErasePartitionsOps(r, PARTITIONS), cut)
    requires copy == MAIN || copy == BACKUP
    ensures HasCopies(cut) && id in cut && RecordOf(cut[copy]) == r
  {
    hide GoodGeometry, Cut, Intact, RecordOf, ErasePartitionsOps;
    CutErases(image, r, cut);
  }

  lemma Erased(image: Image, r: Record, cut: Image, id: PageId)
    requires Both(image, r) && GoodGeometry(r) && id in image && id != MAIN && id != BACKUP
    requires Doomed(r, PARTITIONS, id)
    requires Cut(ApplyAll(image, ErasePartitionsOps(r, PARTITIONS)), WritebackOps(Repaired(r)), cut)
    ensures HasCopies(cut) && id in cut && cut[id] == Blanks(PAGE_WORDS)
  {
    hide GoodGeometry, Cut, Intact, RecordOf, ErasePartitionsOps, Doomed, Repaired, RepairOf, WritebackOps;
    AfterErases(image, r);
    RepairedIs(r);
    CutWriteback(ApplyAll(image, ErasePartitionsOps(r, PARTITIONS)), r, Repaired(r), cut);
  }

  // ---------------------------------------------------------------------------
  // Runs
  // ---------------------------------------------------------------------------

  /** What happens to a device: a boot (or a repair asked for by the firmware
      manager), a writeback of a new record, or other use of the flash. */
  datatype Event = Boot | Write(r: Record) | Other(ops: seq<FlashOp>)

  /** The flash at one instant, and whether the boot-time repair has finished
      since the last power failure. */
  datatype Instant = Instant(image: Image, live: bool)

  /** What the firmware may ask for.  Only a live device writes; a record that is
      written is sealed and keeps the constant partition table. */
  ghost predicate Allowed(s: Instant, e: Event) {
    match e
    case Boot => true
    case Write(r) => s.live && Intact(r) && GoodGeometry(r)
    case Other(ops) => s.live && Elsewhere(ops)
  }

  ghost function EventOps(image: Image, e: Event, initial: Record): seq<FlashOp>
    requires HasCopies(image)
  {
    match e
    case Boot => BootOps(image, initial)
    case Write(r) => WritebackOps(r)
    case Other(ops) => ops
  }

  /** The event runs to its end, or the power fails during it. */
  ghost predicate Happens(s: Instant, e: Event, completes: bool, t: Instant, initial: Record) {
    && HasCopies(s.image)
    && Allowed(s, e)
    && (if completes then
          !(e.Boot? && Halts(s.image)) && t == Instant(ApplyAll(s.image, EventOps(s.image, e, initial)), true)
        else
          Cut(s.image, EventOps(s.image, e, initial), t.image) && !t.live)
  }

  /** The event, seen as one atomic change of the stored record. */
  ghost function Outcome(e: Event, r: Record): Record {
    match e
    case Boot => Repaired(r)
    case Write(w) => w
    case Other(_) => r
  }

  ghost predicate Safe(s: Instant) {
    && HasCopies(s.image) && Survives(s.image)
    && GoodGeometry(Survivor(s.image))
    && (s.live ==> Both(s.image, Survivor(s.image)))
  }

  /** The pair of pages behaves as one record that every event changes atomically:
      a completed event takes effect, an interrupted one does or does not. */
  lemma EventIsAtomic(s: Instant, e: Event, completes: bool, t: Instant, initial: Record)
    requires Safe(s) && Happens(s, e, completes, t, initial)
    ensures Safe(t)
    ensures completes ==> Survivor(t.image) == Outcome(e, Survivor(s.image))
    ensures Survivor(t.image) == Survivor(s.image) || Survivor(t.image) == Outcome(e, Survivor(s.image))
  {
    var r := Survivor(s.image);
    match e
    case Boot =>
      RepairedIs(r);
      if completes {
        SanitizeCompletes(s.image, r);
      } else {
        SanitizeCut(s.image, r, t.image);
      }
    case Write(w) =>
      if completes {
        AfterWriteback(s.image, w);
      } else {
        CutWriteback(s.image, r, w, t.image);
      }
    case Other(ops) =>
      if completes {
        ElsewhereKeeps(s.image, ops);
      } else {
        CutElsewhere(s.image, ops, t.image);
      }
  }

  /** A run: each instant follows from the one before by some event, completed or
      cut, in any order and number. */
  ghost predicate Run(run: seq<Instant>, initial: Record) {
    forall i | 0 <= i < |run| - 1 :: Follows(run[i], run[i + 1], initial)
  }

  ghost predicate Follows(s: Instant, t: Instant, initial: Record) {
    exists e: Event, completes: bool :: Happens(s, e, completes, t, initial)
  }

  /** A run may boot whenever it does not stop for good, be cut in a boot anywhere,
      and, once a boot has finished, write any sealed record whose partitions are in
      place, or use the rest of the flash; and be cut in that, too. */
  lemma EverythingHappens(s: Instant, r: Record, ops: seq<FlashOp>, cut: Image, initial: Record)
    requires HasCopies(s.image)
    ensures !Halts(s.image) ==> Follows(s, Instant(ApplyAll(s.image, BootOps(s.image, initial)), true), initial)
    ensures Cut(s.image, BootOps(s.image, initial), cut) ==> Follows(s, Instant(cut, false), initial)
    ensures s.live && Intact(r) && GoodGeometry(r) ==>
      && Follows(s, Instant(ApplyAll(s.image, WritebackOps(r)), true), initial)
      && (Cut(s.image, WritebackOps(r), cut) ==> Follows(s, Instant(cut, false), initial))
    ensures s.live && (forall op | op in ops :: op.id != PageId(0, 94) && op.id != PageId(0, 95)) ==>
      && Follows(s, Instant(ApplyAll(s.image, ops), true), initial)
      && (Cut(s.image, ops, cut) ==> Follows(s, Instant(cut, false), initial))
  {
    hide ApplyAll, Cut, BootOps, WritebackOps, Halts, GoodGeometry, Intact;
    var booted := Instant(ApplyAll(s.image, BootOps(s.image, initial)), true);
    assert !Halts(s.image) ==> Happens(s, Boot, true, booted, initial);
    assert Cut(s.image, BootOps(s.image, initial), cut) ==> Happens(s, Boot, false, Instant(cut, false), initial);
    if s.live && Intact(r) && GoodGeometry(r) {
      assert Happens(s, Write(r), true, Instant(ApplyAll(s.image, WritebackOps(r)), true), initial);
      assert Cut(s.image, WritebackOps(r), cut) ==> Happens(s, Write(r), false, Instant(cut, false), initial);
    }
    if s.live && Elsewhere(ops) {
      assert Happens(s, Other(ops), true, Instant(ApplyAll(s.image, ops), true), initial);
      assert Cut(s.image, ops, cut) ==> Happens(s, Other(ops), false, Instant(cut, false), initial);
    }
  }

  /** Once one copy is complete, at every later instant of every run a copy is
      intact, and the boot never takes the endless loop. */
  lemma {:induction false} NeverLost(run: seq<Instant>, initial: Record, n: nat)
    requires n < |run| && Run(run, initial) && Safe(run[0])
    ensures Safe(run[n]) && !Halts(run[n].image)
  {
    if n == 0 {
    } else {
      NeverLost(run, initial, n - 1);
      var e, completes :| Happens(run[n - 1], e, completes, run[n], initial);
      EventIsAtomic(run[n - 1], e, completes, run[n], initial);
    }
  }

  // ---------------------------------------------------------------------------
  // One writeback, cut, and the boots that follow
  // ---------------------------------------------------------------------------

  /** Every boot of the list is cut, anywhere. */
  ghost predicate BootsCut(boots: seq<Image>, initial: Record) {
    && (forall i | 0 <= i < |boots| :: HasCopies(boots[i]))
    && forall i | 0 <= i < |boots| - 1 :: Cut(boots[i], BootOps(boots[i], initial), boots[i + 1])
  }

  /** What boots that are cut make of a record r and of the partitions: nothing yet
      but erasing what has to be erased, or the whole repair. */
  ghost predicate OnTheWay(image: Image, r: Record, cut: Image) {
    || (SurvivesAs(cut, r) && OnlyDoomedTouched(image, r, cut))
    || (SurvivesAs(cut, Repaired(r)) && PartitionsErased(image, r, cut))
  }

  // One boot more, from a record not repaired yet.
  lemma StillOnTheWay(image: Image, r: Record, mid: Image, cut: Image)
    requires SurvivesAs(mid, r) && OnlyDoomedTouched(image, r, mid) && GoodGeometry(r)
    requires Cut(mid, SanitizeOps(mid), cut)
    ensures OnTheWay(image, r, cut)
  {
    SanitizeCut(mid, r, cut);
    hide Doomed, SurvivesAs, Cut, SanitizeOps, Repaired, GoodGeometry;
    assert OnlyDoomedTouched(mid, r, cut) ==> OnlyDoomedTouched(image, r, cut);
    assert PartitionsErased(mid, r, cut) ==> PartitionsErased(image, r, cut);
  }

  // One boot more, after the repair.
  lemma NothingDoomed(r: Record, id: PageId)
    requires Intact(r)
    ensures !Doomed(Repaired(r), PARTITIONS, id)
  {
    hide Covers, Value, Repaired;
    RepairedIs(r);
  }

  lemma StillRepaired(image: Image, r: Record, mid: Image, cut: Image)
    requires SurvivesAs(mid, Repaired(r)) && PartitionsErased(image, r, mid) && GoodGeometry(r) && Intact(r)
    requires Cut(mid, SanitizeOps(mid), cut)
    ensures OnTheWay(image, r, cut)
  {
    RepairedIs(r);
    SanitizeCut(mid, Repaired(r), cut);
    forall id | id in mid && id != MAIN && id != BACKUP
      ensures cut[id] == mid[id]
    {
      NothingDoomed(r, id);
    }
  }

  lemma {:induction false} CutBootsKeep(boots: seq<Image>, initial: Record, r: Record, n: nat)
    requires n < |boots| && BootsCut(boots, initial)
    requires SurvivesAs(boots[0], r) && GoodGeometry(r) && Intact(r)
    ensures OnTheWay(boots[0], r, boots[n])
  {
    hide SurvivesAs, Cut, SanitizeOps, Repaired, GoodGeometry, Intact;
    if n == 0 {
    } else {
      CutBootsKeep(boots, initial, r, n - 1);
      CutBoot(boots[n - 1], initial, boots[n]);
      if SurvivesAs(boots[n - 1], r) && OnlyDoomedTouched(boots[0], r, boots[n - 1]) {
        StillOnTheWay(boots[0], r, boots[n - 1], boots[n]);
      } else {
        StillRepaired(boots[0], r, boots[n - 1], boots[n]);
      }
    }
  }

  lemma CutBoot(image: Image, initial: Record, cut: Image)
    requires HasCopies(image) && Cut(image, BootOps(image, initial), cut)
    ensures forall r :: SurvivesAs(image, r) ==> Cut(image, SanitizeOps(image), cut)
  {
  }

  /** Writeback is crash-atomic.  From two intact copies of `was`, cut a writeback
      of r anywhere, then any number of boots each anywhere, then let one boot
      finish: both copies are intact, equal, and hold exactly the repaired form of
      `was` or of r; the partitions which that record had marked inconsistent are
      blank, and all other pages outside the section are as they were. */
  lemma CrashAtomic(image: Image, was: Record, r: Record, boots: seq<Image>, initial: Record)
    requires Both(image, was) && Intact(r) && GoodGeometry(was) && GoodGeometry(r)
    requires |boots| > 0 && Cut(image, WritebackOps(r), boots[0])
    requires forall i | 0 <= i < |boots| :: HasCopies(boots[i])
    requires forall i | 0 <= i < |boots| - 1 :: Cut(boots[i], BootOps(boots[i], initial), boots[i + 1])
    ensures !Halts(boots[|boots| - 1])
    ensures var after := ApplyAll(boots[|boots| - 1], BootOps(boots[|boots| - 1], initial));
      || (Both(after, Repaired(was)) && PartitionsErased(image, was, after))
      || (Both(after, Repaired(r)) && PartitionsErased(image, r, after))
    ensures RepairOf(was, Repaired(was)) && RepairOf(r, Repaired(r))
  {
    CutWriteback(image, was, r, boots[0]);
    RepairedIs(was);
    RepairedIs(r);
    if SurvivesAs(boots[0], was) {
      LastBoot(image, was, boots, initial);
    } else {
      LastBoot(image, r, boots, initial);
    }
  }

  // The boots after the writeback, the last of which finishes.
  lemma LastBoot(image: Image, r: Record, boots: seq<Image>, initial: Record)
    requires |boots| > 0 && BootsCut(boots, initial)
    requires SurvivesAs(boots[0], r) && GoodGeometry(r) && Intact(r)
    requires boots[0].Keys == image.Keys
    requires forall id | id in image && id != MAIN && id != BACKUP :: boots[0][id] == image[id]
    ensures var last := boots[|boots| - 1];
      && HasCopies(last) && !Halts(last)
      && Both(ApplyAll(last, BootOps(last, initial)), Repaired(r))
      && PartitionsErased(image, r, ApplyAll(last, BootOps(last, initial)))
  {
    var last := boots[|boots| - 1];
    CutBootsKeep(boots, initial, r, |boots| - 1);
    if SurvivesAs(last, r) && OnlyDoomedTouched(boots[0], r, last) {
      SanitizeCompletes(last, r);
    } else {
      RepairedIs(r);
      SanitizeCompletes(last, Repaired(r));
      forall id | id in last && id != MAIN && id != BACKUP
        ensures ApplyAll(last, BootOps(last, initial))[id] == last[id]
      {
        NothingDoomed(r, id);
      }
    }
  }

  // ---------------------------------------------------------------------------
  // Provisioning
  // ---------------------------------------------------------------------------

  lemma BlankSection(image: Image)
    requires HasCopies(image) && SectionBlank(image)
    ensures !Survives(image) && !Halts(image)
  {
    BlankNotIntact(MainRecord(image));
    BlankNotIntact(BackupRecord(image));
  }

  /** A first boot that is not disturbed provisions both copies. */
  lemma Provisions(image: Image, initial: Record)
    requires HasCopies(image) && SectionBlank(image)
    requires Intact(initial) && GoodGeometry(initial)
    ensures Both(ApplyAll(image, BootOps(image, initial)), Repaired(initial))
  {
    BlankSection(image);
    AfterWriteback(image, initial);
    AfterSanitizePartitions(ApplyAll(image, WritebackOps(initial)), initial);
    ApplyAppend(image, WritebackOps(initial), SanitizePartitionsOps(initial));
  }

  lemma ProvisioningOps(image: Image, initial: Record)
    requires HasCopies(image) && SectionBlank(image) && !AnyInconsistent(initial, PARTITIONS)
    ensures BootOps(image, initial) == WriteOps(MAIN, initial) + WriteOps(BACKUP, initial)
  {
    hide Checksum, WriteOps;
    BlankSection(image);
    NothingToMark(initial, PARTITIONS);
    assert WritebackOps(initial) + [] == WritebackOps(initial);
  }

  /** Provisioning itself is not power-safe.  With the compiled-in flags, which are
      all consistent, a cut anywhere leaves a device that the next boot halts on
      exactly when the main page has been touched and is not complete. */
  lemma ProvisioningCut(image: Image, initial: Record, cut: Image)
    requires HasCopies(image) && SectionBlank(image)
    requires Intact(initial) && !AnyInconsistent(initial, PARTITIONS)
    requires Cut(image, BootOps(image, initial), cut)
    ensures HasCopies(cut)
    ensures Halts(cut) <==> cut[MAIN] != Blanks(PAGE_WORDS) && !Intact(MainRecord(cut))
  {
    ProvisioningOps(image, initial);
    hide Inconsistent, Checksum, BootOps, Cut, WriteOps, ApplyAll, PageAfter;
    CutAppend(image, WriteOps(MAIN, initial), WriteOps(BACKUP, initial), cut);
    if Cut(image, WriteOps(MAIN, initial), cut) {
      TornCopy(image, MAIN, initial, cut);
      BlankNotIntact(BackupRecord(cut));
    } else {
      AfterWrite(image, MAIN, initial);
      TornCopy(ApplyAll(image, WriteOps(MAIN, initial)), BACKUP, initial, cut);
    }
  }

  /** Some of the first n words are not blank. */
  ghost predicate Marked(r: Record, n: nat)
    requires n <= RECORD_WORDS
  {
    exists j | 0 <= j < n :: r[j] != BLANK_WORD
  }

  lemma MarkedPage(r: Record, n: nat)
    requires n <= RECORD_WORDS
    ensures PageAfter(r[..n]) != Blanks(PAGE_WORDS) <==> Marked(r, n)
  {
    var page := PageAfter(r[..n]);
    assert forall j | 0 <= j < n :: page[j] == r[j];
    assert forall j | n <= j < PAGE_WORDS :: page[j] == BLANK_WORD;
    if Marked(r, n) {
      var j :| 0 <= j < n && r[j] != BLANK_WORD;
      assert page[j] != Blanks(PAGE_WORDS)[j];
    } else {
      assert page == Blanks(PAGE_WORDS);
    }
  }

  // A cut among the first requests of two lists, or after all of them.
  lemma CutAtAppend(image: Image, first: seq<FlashOp>, second: seq<FlashOp>, cut: Image, k: nat)
    requires CutAt(image, first + second, cut, k)
    ensures k < |first| ==> CutAt(image, first, cut, k)
    ensures k >= |first| ==> CutAt(ApplyAll(image, first), second, cut, k - |first|)
  {
    hide Torn;
    var ops := first + second;
    if k < |first| {
      assert ops[..k] == first[..k];
    } else {
      assert ops[..k] == first + second[..k - |first|];
      ApplyAppend(image, first, second[..k - |first|]);
    }
  }

  /** The same by the place of the cut, after k requests or inside the next one: once
      all words of main are programmed the next boot goes on; before that it halts
      as soon as a word that is not blank has been programmed, unless the cut is
      inside the last word and that word is complete. */
  lemma ProvisioningCutAt(image: Image, initial: Record, cut: Image, k: nat)
    requires HasCopies(image) && SectionBlank(image)
    requires Intact(initial) && !AnyInconsistent(initial, PARTITIONS)
    requires CutAt(image, BootOps(image, initial), cut, k)
    ensures HasCopies(cut)
    ensures k > RECORD_WORDS ==> !Halts(cut)
    ensures 1 <= k <= RECORD_WORDS && Marked(initial, k - 1) ==>
      (Halts(cut) <==> !(k == RECORD_WORDS && cut[MAIN][CRC_WORD] == initial[CRC_WORD]))
    ensures cut == ApplyAll(image, BootOps(image, initial)[..k]) ==>
      (Halts(cut) <==> 1 <= k <= RECORD_WORDS && Marked(initial, k - 1))
  {
    var main, backup := WriteOps(MAIN, initial), WriteOps(BACKUP, initial);
    assert Cut(image, BootOps(image, initial), cut);
    ProvisioningCut(image, initial, cut);
    ProvisioningOps(image, initial);
    CutAtAppend(image, main, backup, cut, k);
    assert |main| == 1 + RECORD_WORDS;
    hide Halts, AnyInconsistent, WriteOps, Checksum, Cut, PageAfter, Marked;
    if k > RECORD_WORDS {
      AfterWrite(image, MAIN, initial);
      CutLater(ApplyAll(image, main), initial, cut, k - |main|);
    } else if k >= 1 {
      assert (main + backup)[..k] == main[..k];
      WordsOfMain(image, initial, cut, k);
    } else {
      assert (main + backup)[..0] == [];
      assert ApplyAll(image, []) == image;
    }
  }

  // The backup is written last.
  lemma CutLater(image: Image, initial: Record, cut: Image, k: nat)
    requires HasCopies(image) && Intact(initial) && MainRecord(image) == initial
    requires CutAt(image, WriteOps(BACKUP, initial), cut, k)
    ensures HasCopies(cut) && Intact(MainRecord(cut))
  {
    hide WriteOps, Checksum, CutAt;
    assert Cut(image, WriteOps(BACKUP, initial), cut);
    TornCopy(image, BACKUP, initial, cut);
  }

  // Main part-way.
  lemma WordsOfMain(image: Image, initial: Record, cut: Image, k: nat)
    requires HasCopies(image) && Intact(initial) && 1 <= k <= RECORD_WORDS
    requires CutAt(image, WriteOps(MAIN, initial), cut, k)
    ensures HasCopies(cut)
    ensures Intact(MainRecord(cut)) <==> k == RECORD_WORDS && cut[MAIN][CRC_WORD] == initial[CRC_WORD]
    ensures Marked(initial, k - 1) ==> cut[MAIN] != Blanks(PAGE_WORDS)
    ensures cut == ApplyAll(image, WriteOps(MAIN, initial)[..k]) ==>
      !Intact(MainRecord(cut)) && (cut[MAIN] != Blanks(PAGE_WORDS) <==> Marked(initial, k - 1))
  {
    ProperPrefixNeverIntact(image, MAIN, initial, cut, k);
    var word := CutWriteAt(image, MAIN, initial, cut, k);
    WritePrefix(image, MAIN, initial, k - 1);
    MarkedPage(initial, k - 1);
    CutBetweenWords(initial, k - 1, PageAfter(initial[..k - 1]));
    if Marked(initial, k - 1) {
      StaysMarked(initial, k - 1, word);
    }
  }

  lemma StaysMarked(r: Record, n: nat, word: Word)
    requires n < RECORD_WORDS && Marked(r, n)
    ensures PageAfter(r[..n])[n := word] != Blanks(PAGE_WORDS)
  {
    var j :| 0 <= j < n && r[j] != BLANK_WORD;
    assert PageAfter(r[..n])[n := word][j] == r[j] != Blanks(PAGE_WORDS)[j];
  }

  /** Such a cut exists: after the first word, unless that word is all ones. */
  lemma ProvisioningCanHalt(image: Image, initial: Record)
    requires HasCopies(image) && SectionBlank(image)
    requires initial[0] != BLANK_WORD
    ensures var cut := ApplyAll(image, WriteOps(MAIN, initial)[..2]);
      Cut(image, BootOps(image, initial), cut) && Halts(cut)
  {
    hide SanitizePartitionsOps, Checksum, Apply, ApplyAll, Torn;
    BlankSection(image);
    var ops := BootOps(image, initial);
    assert ops[..2] == WriteOps(MAIN, initial)[..2];
    var cut := ApplyAll(image, ops[..2]);
    assert CutAt(image, ops, cut, 2);
    WritePrefix(image, MAIN, initial, 1);
    PrefixNotIntact(initial[..1]);
    BlankNotIntact(BackupRecord(cut));
    assert cut[MAIN][0] == initial[0] && Blanks(PAGE_WORDS)[0] == BLANK_WORD;
  }
}
