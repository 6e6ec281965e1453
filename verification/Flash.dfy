/** The flash controller driver: pages that can be erased to all ones and words
    whose bits can only be cleared.  Every request the driver makes is recorded,
    so that a power failure can be placed between (or inside) any two of them. */
module Flash {
  import opened Bits

  const CONTROLLERS: nat := 2
  const REGION_PAGES: nat := 96
  const PAGE_WORDS: nat := 512
  const PAGE_BYTES: nat := 2048
  const MAX_ADDR: nat := 0x30000
  const MAX_PAGE_NUM: nat := 96 // MAX_ADDR / (4 * PAGE_WORDS)

  const EINVAL: int := 22

  const BLANK_WORD: Word := Ones(32)

  type Page = p: seq<Word> | |p| == PAGE_WORDS witness Blanks(PAGE_WORDS)

  function Blanks(n: nat): (r: seq<Word>)
    ensures |r| == n
  {
    seq(n, i => BLANK_WORD)
  }

  datatype PageId = PageId(controller: nat, page: nat)

  /** What the whole flash holds at one instant. */
  type Image = map<PageId, Page>

  /** A request to the controller: erase a page, or program one word. */
  datatype FlashOp =
    | Erase(id: PageId)
    | Program(id: PageId, index: nat, data: Word)

  /** A finished request.  Programming clears bits and never sets them; a request
      for a page or word that does not exist changes nothing. */
  function Apply(image: Image, op: FlashOp): (r: Image)
    ensures r.Keys == image.Keys
  {
    if op.id !in image then image
    else if op.Erase? then image[op.id := Blanks(PAGE_WORDS)]
    else if op.index >= PAGE_WORDS then image
    else image[op.id := Programmed(image[op.id], op.index, op.data)]
  }

  function Programmed(page: Page, index: nat, data: Word): Page
    requires index < PAGE_WORDS
  {
    page[index := And(page[index], data)]
  }

  function ApplyAll(image: Image, ops: seq<FlashOp>): (r: Image)
    ensures r.Keys == image.Keys
  {
    if ops == [] then image else Apply(ApplyAll(image, ops[..|ops| - 1]), ops[|ops| - 1])
  }

  lemma ApplyOne(image: Image, ops: seq<FlashOp>, op: FlashOp)
    ensures ApplyAll(image, ops + [op]) == Apply(ApplyAll(image, ops), op)
  {
    assert (ops + [op])[..|ops|] == ops;
  }

  lemma {:induction false} ApplyAppend(image: Image, first: seq<FlashOp>, second: seq<FlashOp>)
    ensures ApplyAll(image, first + second) == ApplyAll(ApplyAll(image, first), second)
    decreases |second|
  {
    if second == [] {
      assert first + second == first;
    } else {
      assert (first + second)[..|first + second| - 1] == first + second[..|second| - 1];
      ApplyAppend(image, first, second[..|second| - 1]);
    }
  }

  // ---------------------------------------------------------------------------
  // What the driver's operations amount to
  // ---------------------------------------------------------------------------

  function ProgramOps(id: PageId, data: seq<Word>): (ops: seq<FlashOp>)
    ensures |ops| == |data|
  {
    seq(|data|, i requires 0 <= i < |data| => Program(id, i, data[i]))
  }

  /** The requests of a page write: one erase, then the words in order. */
  function WriteOps(id: PageId, data: seq<Word>): (ops: seq<FlashOp>)
    ensures |ops| == 1 + |data|
  {
    [Erase(id)] + ProgramOps(id, data)
  }

  /** A page that has been erased and then given its first words. */
  function PageAfter(data: seq<Word>): (p: Page)
    requires |data| <= PAGE_WORDS
  {
    data + Blanks(PAGE_WORDS - |data|)
  }

  /** The plain array update that the read-modify-write cycle stands for. */
  function Overlay(page: Page, offset: nat, data: seq<Word>): (p: Page)
    requires offset + |data| <= PAGE_WORDS
  {
    page[..offset] + data + page[offset + |data|..]
  }

  lemma LogOfWrite(log: seq<FlashOp>, id: PageId, data: seq<Word>)
    ensures log + [Erase(id)] + ProgramOps(id, data) == log + WriteOps(id, data)
  {
  }

  lemma FullPage(page: Page)
    ensures PageAfter(page) == page
  {
  }

  lemma AndBlank(w: Word)
    ensures And(BLANK_WORD, w) == w
  {
  }

  // An erased page takes the next word as it is.
  lemma ProgramNext(image: Image, id: PageId, data: seq<Word>, w: Word)
    requires |data| < PAGE_WORDS
    requires id in image && image[id] == PageAfter(data)
    ensures Apply(image, Program(id, |data|, w)) == image[id := PageAfter(data + [w])]
  {
    AndBlank(w);
    assert image[id][|data| := w] == PageAfter(data + [w]);
  }

  // The erase alone.
  lemma WriteNone(image: Image, id: PageId, data: seq<Word>)
    requires |data| <= PAGE_WORDS && id in image
    ensures ApplyAll(image, WriteOps(id, data)[..1]) == image[id := PageAfter([])]
  {
    hide And;
    assert WriteOps(id, data)[..1] == [] + [Erase(id)];
    ApplyOne(image, [], Erase(id));
    assert PageAfter([]) == Blanks(PAGE_WORDS);
  }

  /** A page write cut after any number of words leaves exactly those words, the
      rest of the page blank, and no trace of what the page held before. */
  lemma {:induction false} WritePrefix(image: Image, id: PageId, data: seq<Word>, n: nat)
    requires n <= |data| <= PAGE_WORDS
    requires id in image
    ensures ApplyAll(image, WriteOps(id, data)[..n + 1]) == image[id := PageAfter(data[..n])]
  {
    hide Apply, ApplyAll, PageAfter;
    var ops := WriteOps(id, data);
    if n == 0 {
      WriteNone(image, id, data);
      assert data[..0] == [];
    } else {
      WritePrefix(image, id, data, n - 1);
      assert ops[..n + 1] == ops[..n] + [Program(id, n - 1, data[n - 1])];
      ApplyOne(image, ops[..n], Program(id, n - 1, data[n - 1]));
      var before := data[..n - 1];
      ProgramNext(image[id := PageAfter(before)], id, before, data[n - 1]);
      assert before + [data[n - 1]] == data[..n];
    }
  }

  lemma WriteWhole(image: Image, id: PageId, data: seq<Word>)
    requires |data| <= PAGE_WORDS
    requires id in image
    ensures ApplyAll(image, WriteOps(id, data)) == image[id := PageAfter(data)]
  {
    WritePrefix(image, id, data, |data|);
    assert WriteOps(id, data)[..|data| + 1] == WriteOps(id, data);
    assert data[..|data|] == data;
  }

  // ---------------------------------------------------------------------------
  // The address field of the control register
  // ---------------------------------------------------------------------------

  const CTRL_STEP: nat := 16 // one word, shifted by the two request bits
  const CTRL_PAGE_SPAN: nat := 8192 // one page

  // The field counts bytes, above the two request bits.
  function CtrlPage(ctrl: nat): nat {
    ctrl / 4 / PAGE_BYTES
  }

  function CtrlIndex(ctrl: nat): nat {
    ctrl / 4 % PAGE_BYTES / 4
  }

  // The running address never leaves its page while the data fits.
  lemma CtrlDecodes(page: nat, i: nat)
    requires i < PAGE_WORDS
    ensures CtrlPage(page * CTRL_PAGE_SPAN + CTRL_STEP * i) == page
    ensures CtrlIndex(page * CTRL_PAGE_SPAN + CTRL_STEP * i) == i
  {
  }

  lemma FirstOp(image: Image, id: PageId, data: seq<Word>)
    ensures var ops := WriteOps(id, data);
      ops[1..1] == [] && Apply(image, Erase(id)) == ApplyAll(image, ops[..1])
  {
    assert WriteOps(id, data)[..1] == [] + [Erase(id)];
    ApplyOne(image, [], Erase(id));
  }

  lemma AllOps(id: PageId, data: seq<Word>)
    ensures var ops := WriteOps(id, data);
      ops[..|data| + 1] == ops && ops[1..|data| + 1] == ProgramOps(id, data)
  {
  }

  lemma NextOp(image: Image, id: PageId, data: seq<Word>, i: nat)
    requires i < |data|
    ensures var ops := WriteOps(id, data);
      && ops[1..i + 2] == ops[1..i + 1] + [Program(id, i, data[i])]
      && ApplyAll(image, ops[..i + 2]) == Apply(ApplyAll(image, ops[..i + 1]), Program(id, i, data[i]))
  {
    var ops := WriteOps(id, data);
    assert ops[..i + 2] == ops[..i + 1] + [Program(id, i, data[i])];
    ApplyOne(image, ops[..i + 1], Program(id, i, data[i]));
  }

  /** The part of the data that lies inside the page. */
  function Inside(offset: nat, data: seq<Word>): (d: seq<Word>)
    requires offset <= PAGE_WORDS
    ensures d <= data && offset + |d| <= PAGE_WORDS
    ensures offset + |data| <= PAGE_WORDS ==> d == data
  {
    if offset + |data| <= PAGE_WORDS then data else data[..PAGE_WORDS - offset]
  }

  /** What the update leaves behind the page in the buffer: the words past its end. */
  function Beyond(rest: seq<Word>, offset: nat, data: seq<Word>): (r: seq<Word>)
    requires offset <= PAGE_WORDS && offset + |data| <= PAGE_WORDS + |rest|
    ensures |r| == |rest|
    ensures offset + |data| <= PAGE_WORDS ==> r == rest
  {
    if offset + |data| <= PAGE_WORDS then rest
    else data[PAGE_WORDS - offset..] + rest[offset + |data| - PAGE_WORDS..]
  }

  // A buffer that starts with the page, after the data has been laid over it.
  lemma OverlayOfCopy(page: Page, copied: seq<Word>, result: seq<Word>, offset: nat, data: seq<Word>)
    requires offset <= PAGE_WORDS && offset + |data| <= |copied| && PAGE_WORDS <= |copied|
    requires copied[..PAGE_WORDS] == page
    requires result == copied[..offset] + data + copied[offset + |data|..]
    ensures result[..PAGE_WORDS] == Overlay(page, offset, Inside(offset, data))
    ensures result[PAGE_WORDS..] == Beyond(copied[PAGE_WORDS..], offset, data)
  {
    assert page[..offset] == copied[..offset];
    if offset + |data| <= PAGE_WORDS {
      assert page[offset + |data|..] == copied[offset + |data|..PAGE_WORDS];
    } else {
      assert copied[PAGE_WORDS..][offset + |data| - PAGE_WORDS..] == copied[offset + |data|..];
    }
  }

  // ---------------------------------------------------------------------------
  // The device
  // ---------------------------------------------------------------------------

  class FlashDevice {
    var pages: Image
    /** Every request the hardware has carried out, in order. */
    ghost var log: seq<FlashOp>

    ghost predicate Valid()
      reads this
    {
      forall id: PageId :: id in pages <==> id.controller < CONTROLLERS && id.page < REGION_PAGES
    }

    /** A request written to the control register of one controller: the address
        field counts bytes, two bits up. */
    method EraseRequest(controller: nat, ctrl: nat)
      requires Valid()
      modifies this
      ensures Valid()
      ensures log == old(log) + [Erase(PageId(controller, CtrlPage(ctrl)))]
      ensures pages == Apply(old(pages), Erase(PageId(controller, CtrlPage(ctrl))))
    {
      var op := Erase(PageId(controller, CtrlPage(ctrl)));
      pages := Apply(pages, op);
      log := log + [op];
    }

    method WriteRequest(controller: nat, ctrl: nat, data: Word)
      requires Valid()
      modifies this
      ensures Valid()
      ensures log == old(log) + [Program(PageId(controller, CtrlPage(ctrl)), CtrlIndex(ctrl), data)]
      ensures pages == Apply(old(pages), Program(PageId(controller, CtrlPage(ctrl)), CtrlIndex(ctrl), data))
    {
      var op := Program(PageId(controller, CtrlPage(ctrl)), CtrlIndex(ctrl), data);
      pages := Apply(pages, op);
      log := log + [op];
    }

    /** Erase one page of the system region. */
    method PageErase(controller: nat, page: nat) returns (rc: int)
      requires Valid()
      modifies this
      ensures Valid()
      ensures rc == if controller < 2 && page <= 96 then 0 else -EINVAL
      ensures rc != 0 ==> log == old(log) && pages == old(pages)
      ensures rc == 0 ==> log == old(log) + [Erase(PageId(controller, page))]
      ensures rc == 0 ==> pages == Apply(old(pages), Erase(PageId(controller, page)))
    {
      if controller >= CONTROLLERS || page > MAX_PAGE_NUM {
        return -EINVAL;
      }
      CtrlDecodes(page, 0);
      EraseRequest(controller, page * CTRL_PAGE_SPAN);
      return 0;
    }

    /** The programming loop that page write and page update end with: one word
        after another, the address field stepping by CTRL_STEP. */
    method ProgramWords(controller: nat, page: nat, data: seq<Word>, ghost erased: Image)
      requires Valid()
      requires |data| <= PAGE_WORDS
      requires pages == Apply(erased, Erase(PageId(controller, page)))
      modifies this
      ensures Valid()
      ensures log == old(log) + ProgramOps(PageId(controller, page), data)
      ensures pages == ApplyAll(erased, WriteOps(PageId(controller, page), data))
    {
      hide Apply, ApplyAll, WriteOps, ProgramOps, CtrlPage, CtrlIndex;
      ghost var id := PageId(controller, page);
      ghost var ops := WriteOps(id, data);
      var ctrl := page * CTRL_PAGE_SPAN;
      var i := 0;
      FirstOp(erased, id, data);
      while i < |data|
        invariant 0 <= i <= |data|
        invariant ctrl == page * CTRL_PAGE_SPAN + CTRL_STEP * i
        invariant Valid()
        invariant log == old(log) + ops[1..i + 1]
        invariant pages == ApplyAll(erased, ops[..i + 1])
      {
        CtrlDecodes(page, i);
        WriteRequest(controller, ctrl, data[i]);
        NextOp(erased, id, data, i);
        ctrl := ctrl + CTRL_STEP;
        i := i + 1;
      }
      AllOps(id, data);
    }

    /** Erase one page of the system region and write words to its start. */
    method PageWrite(controller: nat, page: nat, data: seq<Word>) returns (rc: int)
      requires Valid()
      modifies this
      ensures Valid()
      ensures rc == if controller < 2 && page <= 96 && |data| <= 512 then 0 else -EINVAL
      ensures rc != 0 ==> log == old(log) && pages == old(pages)
      ensures rc == 0 ==> log == old(log) + WriteOps(PageId(controller, page), data)
      ensures rc == 0 ==> pages == ApplyAll(old(pages), WriteOps(PageId(controller, page), data))
      ensures rc == 0 && page < REGION_PAGES ==> pages == old(pages)[PageId(controller, page) := PageAfter(data)]
    {
      if controller >= CONTROLLERS || page > MAX_PAGE_NUM || |data| > PAGE_WORDS {
        return -EINVAL;
      }
      CtrlDecodes(page, 0);
      EraseRequest(controller, page * CTRL_PAGE_SPAN);
      ProgramWords(controller, page, data, old(pages));
      if page < REGION_PAGES {
        WriteWhole(old(pages), PageId(controller, page), data);
      }
      return 0;
    }

    /** The overlay loop of the update: `data` goes into the buffer at `offset`. */
    method LayOver(buffer: array<Word>, offset: nat, data: seq<Word>)
      requires offset + |data| <= buffer.Length
      modifies buffer
      ensures buffer[..] == old(buffer[..offset]) + data + old(buffer[offset + |data|..])
    {
      var i, j := 0, offset;
      while i < |data|
        invariant 0 <= i <= |data| && j == offset + i
        invariant forall k | 0 <= k < buffer.Length ::
          buffer[k] == if offset <= k < j then data[k - offset] else old(buffer[k])
      {
        buffer[j] := data[i];
        i, j := i + 1, j + 1;
      }
    }

    /** Copy a page to the RAM buffer. */
    method CopyToRam(id: PageId, buffer: array<Word>)
      requires Valid() && id in pages && buffer.Length >= PAGE_WORDS
      modifies buffer
      ensures buffer[..PAGE_WORDS] == pages[id]
      ensures buffer[PAGE_WORDS..] == old(buffer[PAGE_WORDS..])
    {
      var i := 0;
      while i < PAGE_WORDS
        invariant 0 <= i <= PAGE_WORDS
        invariant buffer[..i] == pages[id][..i]
        invariant buffer[PAGE_WORDS..] == old(buffer[PAGE_WORDS..])
      {
        buffer[i] := pages[id][i];
        i := i + 1;
      }
    }

    /** Read-modify-write: keep the page in a RAM buffer, erase it, and write it
        back with `data` laid over it.  The driver does not check that the data ends
        inside the page: words past its end stay in the buffer, which has to be long
        enough for them. */
    method PageUpdate(controller: nat, address: nat, buffer: array<Word>, data: seq<Word>) returns (rc: int)
      requires Valid()
      requires controller < CONTROLLERS && address < MAX_ADDR && |data| <= PAGE_WORDS ==>
        buffer.Length >= PAGE_WORDS && buffer.Length >= address % PAGE_BYTES / 4 + |data|
      modifies this, buffer
      ensures Valid()
      ensures rc == if controller < 2 && address < 0x30000 && |data| <= 512 then 0 else -EINVAL
      ensures rc != 0 ==> log == old(log) && pages == old(pages) && buffer[..] == old(buffer[..])
      ensures rc == 0 ==>
        var id := PageId(controller, address / 2048);
        && id in old(pages)
        && var offset := address % 2048 / 4;
        && var updated := Overlay(old(pages)[id], offset, Inside(offset, data));
        && pages == old(pages)[id := updated]
        && buffer[..PAGE_WORDS] == updated
        && buffer[PAGE_WORDS..] == Beyond(old(buffer[PAGE_WORDS..]), offset, data)
        && log == old(log) + WriteOps(id, updated)
    {
      if controller >= CONTROLLERS || address >= MAX_ADDR || |data| > PAGE_WORDS {
        return -EINVAL;
      }
      hide Apply, ApplyAll, PageAfter, And, Overlay, Inside, Beyond, WriteOps, ProgramOps;
      var page, offset := address / PAGE_BYTES, address % PAGE_BYTES / 4;
      var id := PageId(controller, page);

      CopyToRam(id, buffer);
      CtrlDecodes(page, 0);
      EraseRequest(controller, page * CTRL_PAGE_SPAN);
      ghost var copied := buffer[..];
      LayOver(buffer, offset, data);
      OverlayOfCopy(old(pages)[id], copied, buffer[..], offset, data);

      // Copy the page back to flash.
      ghost var updated := Overlay(old(pages)[id], offset, Inside(offset, data));
      ProgramWords(controller, page, buffer[..PAGE_WORDS], old(pages));
      WriteWhole(old(pages), id, updated);
      FullPage(updated);
      LogOfWrite(old(log), id, updated);
      return 0;
    }
  }
}
