/** Multiblock DMA on one channel: descriptor chains built one buffer at a time,
    and the interrupt handler that counts blocks into one callback per buffer.

    Memory is a map from 32-bit addresses to list items; every item occupies
    NODE_BYTES bytes and live items do not overlap.  One interrupt is serviced
    for every block that raises one. */
module DmaMultiblock {
  import opened Bits

  const UINT32: nat := 0x1_0000_0000
  const UINT16: nat := 0x1_0000
  const NODE_BYTES: nat := 20
  const BLOCK_TS_MIN: nat := 1
  const BLOCK_TS_MAX: nat := 4095
  const WIDTH_MAX: nat := 5 // a 256-bit transfer
  const EINVAL: int := 22

  datatype Increment = Increment | NoChange

  datatype Direction = MemoryToMemory | MemoryToPeripheral | PeripheralToMemory

  datatype TransferType = Single | MultiCont | MultiLl | MultiLlCircular

  /** The CTL register.  Widths are logarithms of a number of bytes.  The two list
      enable bits are always set and cleared together; `rest` stands for the
      fields that take no part here. */
  datatype CtrlLow = CtrlLow(intEn: bool, srcWidth: nat, dstWidth: nat, srcInc: Increment, dstInc: Increment,
                             llpEn: bool, rest: nat)

  /** What one block moves. */
  datatype Block = Block(source: nat, destination: nat, ctrl: CtrlLow, size: nat)

  datatype Node = Node(block: Block, link: nat)

  type Memory = map<nat, Node>

  datatype ChannelConfig = ChannelConfig(kind: TransferType, direction: Direction, srcWidth: nat, dstWidth: nat, rest: nat)

  datatype MultiTransfer = MultiTransfer(source: nat, destination: nat, blockSize: nat, numBlocks: nat, first: nat) {
    predicate Checked() {
      source != 0 && destination != 0 && BLOCK_TS_MIN <= blockSize <= BLOCK_TS_MAX && numBlocks > 0
    }

    /** The item for block i, in the client's array. */
    function NodeAt(i: nat): nat {
      first + NODE_BYTES * i
    }

    function NodeAddresses(): (s: seq<nat>)
      ensures |s| == numBlocks
    {
      seq(numBlocks, i requires 0 <= i < numBlocks => NodeAt(i))
    }

    /** The client's array is memory that exists. */
    predicate Allocated() {
      numBlocks < UINT16 && first + NODE_BYTES * numBlocks <= UINT32
    }
  }

  /** Bytes from one block to the next. */
  function StepOf(inc: Increment, width: nat, size: nat): nat {
    if inc.Increment? then size * Pow2(width) else 0
  }

  function BlockAt(t: MultiTransfer, ctrl: CtrlLow, i: nat): Block {
    Block((t.source + i * StepOf(ctrl.srcInc, ctrl.srcWidth, t.blockSize)) % UINT32,
          (t.destination + i * StepOf(ctrl.dstInc, ctrl.dstWidth, t.blockSize)) % UINT32,
          ctrl, t.blockSize)
  }

  /** The first n blocks of a buffer. */
  function Blocks(t: MultiTransfer, ctrl: CtrlLow, n: nat): (s: seq<Block>)
    ensures |s| == n
  {
    seq(n, i requires 0 <= i < n => BlockAt(t, ctrl, i))
  }

  function BufferBlocks(t: MultiTransfer, ctrl: CtrlLow): seq<Block> {
    Blocks(t, ctrl, t.numBlocks)
  }

  /** The blocks of all buffers, in the order of the calls. */
  function AllBlocks(buffers: seq<MultiTransfer>, ctrl: CtrlLow): seq<Block> {
    if buffers == [] then []
    else AllBlocks(buffers[..|buffers| - 1], ctrl) + BufferBlocks(buffers[|buffers| - 1], ctrl)
  }

  // ---------------------------------------------------------------------------
  // Products and remainders
  // ---------------------------------------------------------------------------

  lemma MulLe(a: nat, b: nat, n: nat)
    requires a <= b
    ensures a * n <= b * n
  {
  }

  lemma MulOrder(a: nat, b: nat, n: nat)
    requires n > 0
    ensures a * n == b * n <==> a == b
  {
    if a < b {
      MulLe(a + 1, b, n);
    } else if b < a {
      MulLe(b + 1, a, n);
    }
  }

  lemma DivMod(a: nat, q: nat, r: nat, n: nat)
    requires 0 <= r < n && a == q * n + r
    ensures a / n == q && a % n == r
  {
    var d := a / n;
    if d < q {
      MulLe(d + 1, q, n);
    } else if d > q {
      MulLe(q + 1, d, n);
    }
  }

  /** Where step k is on a ring of n. */
  function Around(k: nat, n: nat): (i: nat)
    requires n > 0
    ensures i < n
  {
    k % n
  }

  // Counting on by one.
  lemma NextIndex(k: nat, n: nat)
    requires n > 0
    ensures (k + 1) % n == if k % n + 1 < n then k % n + 1 else 0
    ensures (k + 1) / n == if k % n + 1 < n then k / n else k / n + 1
  {
    var q, r := k / n, k % n;
    if r + 1 < n {
      DivMod(k + 1, q, r + 1, n);
    } else {
      assert (q + 1) * n == q * n + n;
      DivMod(k + 1, q + 1, 0, n);
    }
  }

  // ---------------------------------------------------------------------------
  // Chains
  // ---------------------------------------------------------------------------

  /** The items at `chain` hold `blocks`, each links to the next, and the last one
      to `end`. */
  ghost predicate Linked(memory: Memory, chain: seq<nat>, blocks: seq<Block>, end: nat) {
    && |chain| == |blocks|
    && forall i | 0 <= i < |chain| :: ItemAt(memory, chain, blocks, end, i)
  }

  ghost predicate ItemAt(memory: Memory, chain: seq<nat>, blocks: seq<Block>, end: nat, i: nat)
    requires i < |chain| == |blocks|
  {
    && chain[i] != 0 && chain[i] in memory
    && memory[chain[i]] == Node(blocks[i], if i + 1 < |chain| then chain[i + 1] else end)
  }

  /** No two items overlap. */
  ghost predicate Apart(chain: seq<nat>) {
    forall i, j | 0 <= i < j < |chain| :: chain[i] + NODE_BYTES <= chain[j] || chain[j] + NODE_BYTES <= chain[i]
  }

  /** The client's new array does not overlap any item in use. */
  ghost predicate Clear(chain: seq<nat>, t: MultiTransfer) {
    forall a | a in chain :: a + NODE_BYTES <= t.first || t.NodeAt(t.numBlocks) <= a
  }

  /** Nothing outside the client's new array differs. */
  ghost predicate KeptOutside(was: Memory, now: Memory, t: MultiTransfer) {
    forall a | a in was && (a < t.first || t.NodeAt(t.numBlocks) <= a) :: a in now && now[a] == was[a]
  }

  /** Following the links from `at`. */
  function Visit(memory: Memory, at: nat, steps: nat): seq<Block>
    decreases steps
  {
    if steps == 0 || at == 0 || at !in memory then []
    else [memory[at].block] + Visit(memory, memory[at].link, steps - 1)
  }

  /** A linear chain is visited once, and then ends. */
  lemma {:induction false} VisitLinear(memory: Memory, chain: seq<nat>, blocks: seq<Block>, i: nat, steps: nat)
    requires Linked(memory, chain, blocks, 0)
    requires i <= |chain| && steps >= |chain| - i
    ensures Visit(memory, if i < |chain| then chain[i] else 0, steps) == blocks[i..]
    decreases steps
  {
    if i == |chain| {
    } else {
      assert ItemAt(memory, chain, blocks, 0, i);
      VisitLinear(memory, chain, blocks, i + 1, steps - 1);
    }
  }

  /** A circular chain is visited again and again. */
  lemma {:induction false} VisitCircular(memory: Memory, chain: seq<nat>, blocks: seq<Block>, k: nat, steps: nat)
    requires chain != [] && Linked(memory, chain, blocks, chain[0])
    ensures var visited := Visit(memory, chain[Around(k, |chain|)], steps);
      |visited| == steps && forall j | 0 <= j < steps :: visited[j] == blocks[Around(k + j, |chain|)]
    decreases steps
  {
    if steps == 0 {
    } else {
      var i, next := Around(k, |chain|), Around(k + 1, |chain|);
      NextIndex(k, |chain|);
      assert ItemAt(memory, chain, blocks, chain[0], i);
      assert chain[i] in memory && memory[chain[i]] == Node(blocks[i], chain[next]);
      hide Around, Linked, ItemAt;
      VisitCircular(memory, chain, blocks, k + 1, steps - 1);
      var rest := Visit(memory, chain[next], steps - 1);
      assert Visit(memory, chain[i], steps) == [blocks[i]] + rest;
      assert forall j | 0 <= j < steps - 1 :: rest[j] == blocks[Around(k + 1 + j, |chain|)];
    }
  }

  // Redirecting the tail and adding a chain behind it.
  lemma LinkedAppend(memory: Memory, chain: seq<nat>, blocks: seq<Block>, end: nat, linked: Memory,
                     more: seq<nat>, moreBlocks: seq<Block>)
    requires chain != [] && more != []
    requires Linked(memory, chain, blocks, end) && Linked(linked, more, moreBlocks, end)
    requires forall a | a in chain :: a in memory && a in linked
    requires forall i | 0 <= i < |chain| - 1 :: linked[chain[i]] == memory[chain[i]]
    requires linked[chain[|chain| - 1]] == memory[chain[|chain| - 1]].(link := more[0])
    ensures Linked(linked, chain + more, blocks + moreBlocks, end)
  {
    var all := chain + more;
    forall i | 0 <= i < |all|
      ensures ItemAt(linked, all, blocks + moreBlocks, end, i)
    {
      if i >= |chain| {
        assert ItemAt(linked, more, moreBlocks, end, i - |chain|);
      } else {
        assert ItemAt(memory, chain, blocks, end, i);
      }
    }
  }

  lemma ApartAppend(chain: seq<nat>, t: MultiTransfer)
    requires Apart(chain) && Clear(chain, t)
    ensures Apart(chain + t.NodeAddresses())
  {
    var all := chain + t.NodeAddresses();
    forall i, j | 0 <= i < j < |all|
      ensures all[i] + NODE_BYTES <= all[j] || all[j] + NODE_BYTES <= all[i]
    {
      if i < |chain| <= j {
        assert all[i] in chain;
      }
    }
  }

  // ---------------------------------------------------------------------------
  // Lengths
  // ---------------------------------------------------------------------------

  function Bytes(blocks: seq<Block>): nat {
    if blocks == [] then 0
    else Bytes(blocks[..|blocks| - 1]) + blocks[|blocks| - 1].size * Pow2(blocks[|blocks| - 1].ctrl.srcWidth)
  }

  /** The length the handler reports: 32 bits of it. */
  function Reported(size: nat, numBlocks: nat, width: nat): nat {
    Product(size, numBlocks, width) % UINT32
  }

  function Product(size: nat, numBlocks: nat, width: nat): nat {
    size * numBlocks * Pow2(width)
  }

  lemma OneMore(size: nat, n: nat, p: nat)
    ensures size * n * p + size * p == size * (n + 1) * p
  {
  }

  lemma {:induction false} BytesOfBlocks(t: MultiTransfer, ctrl: CtrlLow, n: nat)
    ensures Bytes(Blocks(t, ctrl, n)) == Product(t.blockSize, n, ctrl.srcWidth)
  {
    hide Pow2, StepOf;
    if n == 0 {
      assert Blocks(t, ctrl, 0) == [];
    } else {
      var blocks := Blocks(t, ctrl, n);
      BytesOfBlocks(t, ctrl, n - 1);
      assert blocks[..n - 1] == Blocks(t, ctrl, n - 1);
      assert blocks[n - 1] == BlockAt(t, ctrl, n - 1);
      OneMore(t.blockSize, n - 1, Pow2(ctrl.srcWidth));
    }
  }

  lemma Regroup(size: nat, i: nat, p: nat)
    ensures i * (size * p) == size * i * p
  {
  }

  // One side's address after i steps.
  lemma Stepped(base: nat, inc: Increment, width: nat, size: nat, i: nat)
    requires base < UINT32
    ensures (base + i * StepOf(inc, width, size)) % UINT32
         == if inc.Increment? then (base + size * i * Pow2(width)) % UINT32 else base
  {
    hide Pow2;
    if inc.Increment? {
      Regroup(size, i, Pow2(width));
    }
  }

  /** Where the blocks of a buffer lie: on a side that steps each begins where the one
      before ends, so that they tile the buffer, 32-bit addresses wrapping round; on a
      side that does not step all are at one address. */
  lemma BlocksTile(t: MultiTransfer, ctrl: CtrlLow, i: nat)
    requires t.source < UINT32 && t.destination < UINT32
    ensures var block := BlockAt(t, ctrl, i);
      && block.size == t.blockSize && block.ctrl == ctrl
      && (ctrl.srcInc.Increment? ==>
            && block.source == (t.source + t.blockSize * i * Pow2(ctrl.srcWidth)) % 0x1_0000_0000
            && block.source == (t.source + Bytes(Blocks(t, ctrl, i))) % 0x1_0000_0000)
      && (ctrl.srcInc.NoChange? ==> block.source == t.source)
      && (ctrl.dstInc.Increment? ==>
            block.destination == (t.destination + t.blockSize * i * Pow2(ctrl.dstWidth)) % 0x1_0000_0000)
      && (ctrl.dstInc.NoChange? ==> block.destination == t.destination)
  {
    hide Pow2, Bytes, StepOf, Blocks;
    BytesOfBlocks(t, ctrl, i);
    Stepped(t.source, ctrl.srcInc, ctrl.srcWidth, t.blockSize, i);
    Stepped(t.destination, ctrl.dstInc, ctrl.dstWidth, t.blockSize, i);
  }

  // The greatest possible length needs 33 bits.
  lemma FitsTwice(size: nat, n: nat, w: nat)
    requires size <= BLOCK_TS_MAX && n < UINT16 && w <= WIDTH_MAX
    ensures Product(size, n, w) < 2 * UINT32
    ensures w < WIDTH_MAX ==> Product(size, n, w) < UINT32
  {
    assert Pow2(0) == 1 && Pow2(1) == 2 && Pow2(2) == 4 && Pow2(3) == 8 && Pow2(4) == 16 && Pow2(5) == 32;
    MulLe(size, BLOCK_TS_MAX, n);
    MulLe(size * n, BLOCK_TS_MAX * (UINT16 - 1), Pow2(w));
  }

  lemma SameLength(a: nat, b: nat, n: nat, w: nat)
    requires n > 0
    ensures Product(a, n, w) == Product(b, n, w) <==> a == b
    ensures a < b ==> Product(a, n, w) < Product(b, n, w)
  {
    MulOrder(a, b, n);
    MulOrder(a * n, b * n, Pow2(w));
    if a < b {
      MulLe(a, b, n);
      MulLe(a * n, b * n, Pow2(w));
    }
  }

  lemma OddProduct(a: nat, b: nat)
    ensures (2 * a + 1) * (2 * b + 1) == 2 * (2 * a * b + a + b) + 1
  {
  }

  // Only a power of two divides a power of two.
  lemma {:induction false} Divisor(d: nat, n: nat, k: nat) returns (j: nat)
    requires d * n == Pow2(k)
    ensures d == Pow2(j)
    decreases k
  {
    if k == 0 {
      j := 0;
    } else if d % 2 == 0 {
      assert d == 2 * (d / 2) && (d / 2) * n == Pow2(k - 1);
      j := Divisor(d / 2, n, k - 1);
      j := j + 1;
    } else {
      if n % 2 == 1 {
        OddProduct(d / 2, n / 2);
      }
      assert n == 2 * (n / 2) && d * (n / 2) == Pow2(k - 1);
      j := Divisor(d, n / 2, k - 1);
    }
  }

  lemma {:induction false} Pow2Grows(a: nat, b: nat)
    requires a <= b
    ensures Pow2(a) <= Pow2(b)
    decreases b
  {
    if a == b {
    } else {
      Pow2Grows(a, b - 1);
    }
  }

  // Two buffers whose 256-bit lengths differ never differ by 2^32.
  lemma NeverAWrapApart(d: nat, n: nat)
    requires d < BLOCK_TS_MAX && n < UINT16
    ensures d * n != 0x800_0000
  {
    assert Pow2(11) == 2048 && Pow2(12) == 4096;
    assert Pow2(20) == 1048576;
    assert Pow2(27) == 134217728;
    if d * n == Pow2(27) {
      MulLe(n, UINT16 - 1, d);
      var j := Divisor(d, n, 27);
      if j <= 11 {
        Pow2Grows(j, 11);
      } else {
        Pow2Grows(12, j);
      }
    }
  }

  lemma WrappedLength(a: nat, b: nat, n: nat, w: nat)
    requires 0 < a <= BLOCK_TS_MAX && b <= BLOCK_TS_MAX && 0 < n < UINT16 && w <= WIDTH_MAX
    requires Product(b, n, w) >= UINT32
    ensures Product(b, n, w) != Product(a, n, w) + UINT32
  {
    FitsTwice(b, n, w);
    if Product(b, n, w) == Product(a, n, w) + UINT32 {
      SameLength(b, a, n, w);
      assert Pow2(5) == 32;
      assert (b - a) * n * 32 == UINT32;
      NeverAWrapApart(b - a, n);
    }
  }

  /** For items of every width, the length reported with a buffer's callback, which
      is that of the last buffer configured, is the buffer's own number of bytes
      exactly when the two have blocks of one size and that number fits 32 bits. */
  lemma LengthIsExact(t: MultiTransfer, last: MultiTransfer, ctrl: CtrlLow)
    requires t.Checked() && t.Allocated() && last.Checked() && last.Allocated()
    requires t.numBlocks == last.numBlocks && ctrl.srcWidth <= WIDTH_MAX
    ensures Reported(last.blockSize, last.numBlocks, ctrl.srcWidth) == Bytes(BufferBlocks(t, ctrl))
      <==> t.blockSize == last.blockSize && Product(t.blockSize, t.numBlocks, ctrl.srcWidth) < UINT32
  {
    hide Product, Bytes, StepOf;
    BytesOfBlocks(t, ctrl, t.numBlocks);
    FitsTwice(last.blockSize, last.numBlocks, ctrl.srcWidth);
    SameLength(t.blockSize, last.blockSize, t.numBlocks, ctrl.srcWidth);
    if Product(last.blockSize, last.numBlocks, ctrl.srcWidth) >= UINT32 {
      WrappedLength(t.blockSize, last.blockSize, t.numBlocks, ctrl.srcWidth);
    }
  }

  /** Only 256-bit items can fail the second half, and these do. */
  lemma LengthCanWrap(ctrl: CtrlLow)
    requires ctrl.srcWidth == WIDTH_MAX
    ensures var t := MultiTransfer(4, 4, BLOCK_TS_MAX, UINT16 - 1, 4);
      && t.Checked() && t.Allocated()
      && Reported(t.blockSize, t.numBlocks, ctrl.srcWidth) != Bytes(BufferBlocks(t, ctrl))
  {
    var t := MultiTransfer(4, 4, BLOCK_TS_MAX, UINT16 - 1, 4);
    assert Pow2(5) == 32;
    BytesOfBlocks(t, ctrl, t.numBlocks);
  }

  // ---------------------------------------------------------------------------
  // The driver
  // ---------------------------------------------------------------------------

  /** The item written for block i; the last one points to `tail`. */
  function NodeFor(t: MultiTransfer, ctrl: CtrlLow, tail: nat, i: nat): Node {
    Node(BlockAt(t, ctrl, i), if i + 1 < t.numBlocks then t.NodeAt(i + 1) else tail)
  }

  lemma StepsOn(base: nat, i: nat, step: nat)
    ensures (base + (i + 1) * step) % UINT32 == ((base + i * step) % UINT32 + step) % UINT32
  {
    assert (i + 1) * step == i * step + step;
    ModAdd(base + i * step, step);
  }

  lemma ModAdd(a: nat, b: nat)
    ensures (a + b) % UINT32 == (a % UINT32 + b) % UINT32
  {
  }

  // The running addresses of the fill-in loop.
  lemma NextBlock(t: MultiTransfer, ctrl: CtrlLow, i: nat)
    ensures var now := BlockAt(t, ctrl, i);
      BlockAt(t, ctrl, i + 1) == Block((now.source + StepOf(ctrl.srcInc, ctrl.srcWidth, t.blockSize)) % UINT32,
                                       (now.destination + StepOf(ctrl.dstInc, ctrl.dstWidth, t.blockSize)) % UINT32,
                                       ctrl, t.blockSize)
  {
    hide StepOf;
    StepsOn(t.source, i, StepOf(ctrl.srcInc, ctrl.srcWidth, t.blockSize));
    StepsOn(t.destination, i, StepOf(ctrl.dstInc, ctrl.dstWidth, t.blockSize));
  }

  lemma FirstBlock(t: MultiTransfer, ctrl: CtrlLow)
    requires t.source < UINT32 && t.destination < UINT32
    ensures BlockAt(t, ctrl, 0) == Block(t.source, t.destination, ctrl, t.blockSize)
  {
  }

  lemma ItemsLinked(memory: Memory, t: MultiTransfer, ctrl: CtrlLow, tail: nat)
    requires t.first != 0
    requires forall i: nat | i < t.numBlocks :: t.NodeAt(i) in memory && memory[t.NodeAt(i)] == NodeFor(t, ctrl, tail, i)
    ensures Linked(memory, t.NodeAddresses(), BufferBlocks(t, ctrl), tail)
  {
    forall i | 0 <= i < t.numBlocks
      ensures ItemAt(memory, t.NodeAddresses(), BufferBlocks(t, ctrl), tail, i)
    {
      assert t.NodeAddresses()[i] == t.NodeAt(i);
    }
  }

  lemma AllBlocksAppend(buffers: seq<MultiTransfer>, t: MultiTransfer, ctrl: CtrlLow)
    ensures AllBlocks(buffers + [t], ctrl) == AllBlocks(buffers, ctrl) + BufferBlocks(t, ctrl)
  {
    assert (buffers + [t])[..|buffers|] == buffers;
  }

  lemma OneBuffer(t: MultiTransfer, ctrl: CtrlLow)
    requires t.numBlocks > 0
    ensures AllBlocks([t], ctrl) == BufferBlocks(t, ctrl)
    ensures var nodes := t.NodeAddresses();
      Apart(nodes) && nodes[0] == t.first && nodes[t.numBlocks - 1] == t.NodeAt(t.numBlocks - 1)
  {
    AllBlocksAppend([], t, ctrl);
    assert [] + [t] == [t] && [] + BufferBlocks(t, ctrl) == BufferBlocks(t, ctrl);
  }

  lemma {:induction false} AllHaveCtrl(buffers: seq<MultiTransfer>, ctrl: CtrlLow)
    ensures forall b | b in AllBlocks(buffers, ctrl) :: b.ctrl == ctrl
    decreases |buffers|
  {
    if buffers == [] {
    } else {
      AllHaveCtrl(buffers[..|buffers| - 1], ctrl);
    }
  }

  lemma LastCtrl(buffers: seq<MultiTransfer>, ctrl: CtrlLow)
    requires buffers != [] && forall t | t in buffers :: t.numBlocks > 0
    ensures var blocks := AllBlocks(buffers, ctrl);
      blocks != [] && blocks[|blocks| - 1].ctrl == ctrl
      && blocks[|blocks| - 1].size == buffers[|buffers| - 1].blockSize
  {
    var t := buffers[|buffers| - 1];
    assert t in buffers;
    assert BufferBlocks(t, ctrl)[t.numBlocks - 1] == BlockAt(t, ctrl, t.numBlocks - 1);
  }

  // Redirecting the tail and filling in new items leaves the chain as it was, but
  // for its last link.
  lemma ChainKept(was: Memory, redirected: Memory, now: Memory, chain: seq<nat>, blocks: seq<Block>, end: nat,
                  t: MultiTransfer)
    requires chain != [] && Linked(was, chain, blocks, end) && Apart(chain) && Clear(chain, t)
    requires var last := chain[|chain| - 1];
      last in was && redirected == was[last := was[last].(link := t.first)]
    requires KeptOutside(redirected, now, t)
    ensures forall a | a in chain :: a in was && a in now
    ensures forall i | 0 <= i < |chain| - 1 :: now[chain[i]] == was[chain[i]]
    ensures now[chain[|chain| - 1]] == was[chain[|chain| - 1]].(link := t.first)
  {
    forall i | 0 <= i < |chain|
      ensures chain[i] in was && chain[i] in now && now[chain[i]] == redirected[chain[i]]
    {
      assert ItemAt(was, chain, blocks, end, i);
      assert chain[i] in chain;
    }
  }

  lemma TailItem(memory: Memory, chain: seq<nat>, buffers: seq<MultiTransfer>, ctrl: CtrlLow, end: nat)
    requires chain != [] && buffers != [] && Linked(memory, chain, AllBlocks(buffers, ctrl), end)
    requires forall t | t in buffers :: t.numBlocks > 0
    ensures var last := chain[|chain| - 1];
      last in memory && last != 0 && memory[last].link == end && memory[last].block.ctrl == ctrl
      && memory[last].block.size == buffers[|buffers| - 1].blockSize
  {
    LastCtrl(buffers, ctrl);
    assert ItemAt(memory, chain, AllBlocks(buffers, ctrl), end, |chain| - 1);
  }

  lemma Appended(was: Memory, redirected: Memory, now: Memory, chain: seq<nat>, buffers: seq<MultiTransfer>,
                 ctrl: CtrlLow, end: nat, t: MultiTransfer)
    requires chain != [] && Linked(was, chain, AllBlocks(buffers, ctrl), end) && Apart(chain) && Clear(chain, t)
    requires var last := chain[|chain| - 1];
      last in was && redirected == was[last := was[last].(link := t.first)]
    requires KeptOutside(redirected, now, t)
    requires t.numBlocks > 0 && Linked(now, t.NodeAddresses(), BufferBlocks(t, ctrl), end)
    requires |chain| == t.numBlocks * |buffers|
    ensures var longer := chain + t.NodeAddresses();
      && Linked(now, longer, AllBlocks(buffers + [t], ctrl), end) && Apart(longer)
      && |longer| == t.numBlocks * |buffers + [t]| && longer[0] == chain[0]
      && longer[|longer| - 1] == t.NodeAt(t.numBlocks - 1)
  {
    var blocks := AllBlocks(buffers, ctrl);
    ChainKept(was, redirected, now, chain, blocks, end, t);
    OneBuffer(t, ctrl);
    hide BlockAt, Linked, AllBlocks, Apart, BufferBlocks, Clear, ItemAt;
    LinkedAppend(was, chain, blocks, end, now, t.NodeAddresses(), BufferBlocks(t, ctrl));
    ApartAppend(chain, t);
    AllBlocksAppend(buffers, t, ctrl);
    assert t.numBlocks * (|buffers| + 1) == t.numBlocks * |buffers| + t.numBlocks;
  }

  // ---------------------------------------------------------------------------
  // Counting blocks
  // ---------------------------------------------------------------------------

  function Repeat(x: nat, count: nat): (s: seq<nat>)
    ensures |s| == count
  {
    seq(count, _ => x)
  }

  lemma RepeatMore(x: nat, count: nat)
    ensures Repeat(x, count) + [x] == Repeat(x, count + 1)
  {
  }

  /** Reports after k blocks of n to a buffer, when the counter started at p: one at
      block p and one every n blocks from then on, or none if blocks were not counted. */
  function Reports(k: nat, n: nat, p: nat): nat {
    if p == 0 || k < p || n == 0 then 0 else 1 + (k - p) / n
  }

  /** The same for a whole linear list, whose last block reports in any case. */
  function LinearReports(total: nat, n: nat, p: nat): nat {
    if total == 0 then 0 else Reports(total - 1, n, p) + 1
  }

  /** The first blocks of going round and round. */
  function Looped(blocks: seq<Block>, steps: nat): seq<Block> {
    if blocks == [] then [] else seq(steps, i requires 0 <= i < steps => blocks[Around(i, |blocks|)])
  }

  /** What the client has been told, and what the counter holds, after k blocks. */
  ghost predicate Counted(k: nat, n: nat, p: nat, x: nat, callbacks: seq<nat>, pending: nat)
    requires n > 0
  {
    && callbacks == Repeat(x, Reports(k, n, p))
    && (p > 0 ==> pending == if k < p then p - k else n - (k - p) % n)
  }

  lemma NothingCounted(n: nat, x: nat, pending: nat)
    requires n > 0
    ensures Counted(0, n, pending, x, [], pending)
  {
  }

  lemma PendingBound(k: nat, n: nat, p: nat, x: nat, callbacks: seq<nat>, pending: nat)
    requires n > 0 && p > 0 && Counted(k, n, p, x, callbacks, pending)
    ensures 1 <= pending && (pending <= n || pending <= p)
  {
  }

  lemma CountOn(k: nat, n: nat, p: nat, x: nat, callbacks: seq<nat>, pending: nat)
    requires n > 0 && Counted(k, n, p, x, callbacks, pending)
    ensures p == 0 ==> Counted(k + 1, n, p, x, callbacks, pending)
    ensures p > 0 && pending == 1 ==> Counted(k + 1, n, p, x, callbacks + [x], n)
    ensures p > 0 && pending > 1 ==> Counted(k + 1, n, p, x, callbacks, pending - 1)
  {
    RepeatMore(x, Reports(k, n, p));
    if k >= p {
      hide Repeat;
      NextIndex(k - p, n);
    } else if k + 1 == p {
      hide Repeat;
      DivMod(0, 0, 0, n);
    }
  }

  lemma AsCounted(k: nat, n: nat, p: nat, x: nat, callbacks: seq<nat>, pending: nat)
    requires n > 0 && Counted(k, n, p, x, callbacks, pending)
    ensures callbacks == Repeat(x, Reports(k, n, p))
    ensures callbacks + [x] == Repeat(x, Reports(k, n, p) + 1)
  {
    RepeatMore(x, Reports(k, n, p));
  }

  /** Reports come at the ends of buffers only, one for each, exactly if the counter
      starts at the blocks of a buffer. */
  lemma CircularReports(n: nat, p: nat)
    requires n > 0
    ensures (forall k: nat :: Reports(k, n, p) == k / n) <==> p == n
  {
    if p == n {
      forall k: nat
        ensures Reports(k, n, p) == k / n
      {
        if k < n {
          DivMod(k, 0, k, n);
        } else {
          NextBuffer(k, n);
        }
      }
    } else {
      DivMod(n, 1, 0, n);
      DivMod(n - 1, 0, n - 1, n);
      assert Reports(n, n, p) != n / n || Reports(n - 1, n, p) != (n - 1) / n;
    }
  }

  lemma NextBuffer(k: nat, n: nat)
    requires 0 < n <= k
    ensures k / n == 1 + (k - n) / n
  {
    var q, r := (k - n) / n, (k - n) % n;
    assert (q + 1) * n == q * n + n;
    DivMod(k, q + 1, r, n);
  }

  /** The counters with which a linear list of m buffers reports at their ends only. */
  predicate Counts(n: nat, m: nat, p: nat) {
    p == n || (m == 1 && (p == 0 || p > n))
  }

  /** In a linear list the last report comes with the end of the transfer; the others
      come at the ends of buffers, one for each, exactly if the counter Counts. */
  lemma LinearReportsExact(n: nat, m: nat, p: nat)
    requires n > 0 && m > 0
    ensures (forall k: nat | k < n * m :: Reports(k, n, p) == k / n) <==> Counts(n, m, p)
    ensures Counts(n, m, p) ==> LinearReports(n * m, n, p) == m
  {
    LastOf(n * m - 1, n, m);
    if p == n {
      CircularReports(n, p);
    } else if m == 1 {
      OneBufferReports(n, p);
    } else {
      MulLe(2, m, n);
      DivMod(n, 1, 0, n);
      DivMod(n - 1, 0, n - 1, n);
      assert Reports(n, n, p) != n / n || Reports(n - 1, n, p) != (n - 1) / n;
    }
  }

  lemma OneBufferReports(n: nat, p: nat)
    requires n > 0 && p != n
    ensures (forall k: nat | k < n :: Reports(k, n, p) == k / n) <==> p == 0 || p > n
    ensures p == 0 || p > n ==> Reports(n - 1, n, p) == 0
  {
    forall k: nat | k < n
      ensures k / n == 0
    {
      DivMod(k, 0, k, n);
    }
    if 0 < p < n {
      assert Reports(p, n, p) == 1 + 0 / n;
    }
  }

  lemma RingStarts(n: nat)
    requires n > 0
    ensures Around(0, n) == 0
  {
    DivMod(0, 0, 0, n);
  }

  lemma RingOn(k: nat, n: nat)
    requires n > 0
    ensures Around(k + 1, n) == if Around(k, n) + 1 < n then Around(k, n) + 1 else 0
  {
    NextIndex(k, n);
  }

  lemma OnRing(n: nat)
    requires n > 0
    ensures forall k: nat :: Around(k, n) == k % n
  {
  }

  /** Blocks that a contiguous transfer goes on for when the counter holds
      `pending`: the reload bits go when it reaches one, and one block follows. */
  function BlocksLeft(pending: nat, reload: bool): nat {
    if reload then (pending + UINT16 - 2) % UINT16 + 2 else 1
  }

  function ContiguousCount(n: nat): nat {
    BlocksLeft(n, true)
  }

  /** A contiguous transfer on its way. */
  ghost predicate ContiguousAt(t: MultiTransfer, c: CtrlLow, moved: seq<Block>, source: nat, destination: nat,
                               pending: nat, reload: bool) {
    && pending < UINT16
    && moved == Blocks(t, c, |moved|)
    && Block(source, destination, c, t.blockSize) == BlockAt(t, c, |moved|)
    && |moved| + BlocksLeft(pending, reload) == ContiguousCount(t.numBlocks)
  }

  lemma ContiguousStarts(t: MultiTransfer, c: CtrlLow)
    requires t.source < UINT32 && t.destination < UINT32 && t.numBlocks < UINT16
    ensures ContiguousAt(t, c, [], t.source, t.destination, t.numBlocks, true)
  {
    FirstBlock(t, c);
  }

  lemma OneLess(pending: nat, reload: bool)
    requires pending < UINT16
    ensures BlocksLeft(pending, false) == 1
    ensures var next := (pending + UINT16 - 1) % UINT16;
      BlocksLeft(next, next != 1) == BlocksLeft(pending, true) - 1
    ensures BlocksLeft(pending, reload) > 0
  {
  }

  lemma ContiguousOn(t: MultiTransfer, c: CtrlLow, moved: seq<Block>, source: nat, destination: nat,
                     pending: nat, reload: bool)
    requires ContiguousAt(t, c, moved, source, destination, pending, reload)
    ensures pending < UINT16 && BlocksLeft(pending, reload) > 0
    ensures var longer := moved + [Block(source, destination, c, t.blockSize)];
      if reload then
        var next := (pending + UINT16 - 1) % UINT16;
        && ContiguousAt(t, c, longer, (source + StepOf(c.srcInc, c.srcWidth, t.blockSize)) % UINT32,
                        (destination + StepOf(c.dstInc, c.dstWidth, t.blockSize)) % UINT32, next, next != 1)
        && BlocksLeft(next, next != 1) < BlocksLeft(pending, reload)
      else
        longer == Blocks(t, c, ContiguousCount(t.numBlocks))
  {
    hide StepOf, BlockAt, BlocksLeft;
    OneLess(pending, reload);
    NextBlock(t, c, |moved|);
    assert moved + [BlockAt(t, c, |moved|)] == Blocks(t, c, |moved| + 1);
  }

  /** A contiguous transfer moves the number of blocks asked for exactly if that is
      two or more; asked for one, the counter wraps round and 65537 are moved. */
  lemma ContiguousIsExact(n: nat)
    requires 0 < n < UINT16
    ensures ContiguousCount(n) == n <==> n >= 2
    ensures n == 1 ==> ContiguousCount(n) == UINT16 + 1
  {
  }

  // The last of n * m blocks ends buffer m.
  lemma LastOf(k: nat, n: nat, m: nat)
    requires n > 0 && m > 0 && k < n * m
    ensures k + 1 == n * m ==> k / n == m - 1 && k % n == n - 1
  {
    if k + 1 == n * m {
      assert n * m == (m - 1) * n + n;
      DivMod(k, m - 1, n - 1, n);
    }
  }

  lemma ItemIs(memory: Memory, chain: seq<nat>, blocks: seq<Block>, end: nat, i: nat)
    requires Linked(memory, chain, blocks, end) && i < |chain|
    ensures |chain| == |blocks|
    ensures chain[i] in memory && chain[i] != 0 && memory[chain[i]].block == blocks[i]
    ensures memory[chain[i]].link == if i + 1 < |chain| then chain[i + 1] else end
  {
    assert ItemAt(memory, chain, blocks, end, i);
  }

  class Channel {
    // Registers.
    var ctrl: CtrlLow
    var blockTs: nat
    var source: nat
    var destination: nat
    var llp: nat
    var reloadSrc: bool
    var reloadDst: bool
    var blockUnmasked: bool
    var tfrUnmasked: bool
    var enabled: bool

    // Driver data of the channel; 0 is the null pointer.
    var lliTail: nat
    var perBuffer: nat
    var pending: nat
    var circular: bool

    // The client: its list items, and the lengths it has been called with.
    var memory: Memory
    var callbacks: seq<nat>

    /** The items and the buffers of the list configured so far. */
    ghost var chain: seq<nat>
    ghost var buffers: seq<MultiTransfer>
    /** The blocks moved since the channel was last started. */
    ghost var moved: seq<Block>

    /** CTL as the list items hold it. */
    function ListCtrl(): CtrlLow
      reads this
    {
      ctrl.(intEn := true)
    }

    ghost function End(): nat
      requires chain != []
      reads this
    {
      if circular then chain[0] else 0
    }

    /** The list in memory stands for the buffers configured, in order. */
    ghost predicate ListReady()
      reads this
    {
      && chain != [] && buffers != [] && llp == chain[0] && lliTail == chain[|chain| - 1]
      && ctrl.llpEn && Apart(chain)
      && Linked(memory, chain, AllBlocks(buffers, ListCtrl()), End())
      && (forall t | t in buffers :: t.Checked() && t.numBlocks == perBuffer)
      && perBuffer > 0 && |chain| == perBuffer * |buffers|
    }

    /** The channel is stopped, and its list, if any, is sound. */
    ghost predicate Configured()
      reads this
    {
      && !enabled && !blockUnmasked && !tfrUnmasked
      && (if llp == 0 then chain == [] && buffers == [] else ListReady())
    }

    function GetTransferType(): TransferType
      reads this
    {
      if !ctrl.llpEn then
        if !reloadSrc && !reloadDst then Single else MultiCont
      else if circular then MultiLlCircular
      else MultiLl
    }

    constructor ()
      ensures Configured() && llp == 0
    {
      ctrl := CtrlLow(false, 0, 0, Increment, Increment, false, 0);
      blockTs, source, destination, llp := 0, 0, 0, 0;
      reloadSrc, reloadDst, blockUnmasked, tfrUnmasked, enabled := false, false, false, false, false;
      lliTail, perBuffer, pending, circular := 0, 0, 0, false;
      memory, callbacks := map[], [];
      chain, buffers, moved := [], [], [];
    }

    /** Set the channel up; any list configured before is forgotten. */
    method ChannelSetConfig(config: ChannelConfig) returns (rc: int)
      requires Configured()
      modifies this
      ensures Configured() && llp == 0 && memory == old(memory)
      ensures rc == if config.kind.MultiCont? && config.direction.MemoryToMemory? then -EINVAL else 0
      ensures rc == 0 ==> GetTransferType() == config.kind && lliTail == 0 && perBuffer == 1
      ensures rc == 0 ==> (ctrl.llpEn <==> config.kind.MultiLl? || config.kind.MultiLlCircular?)
      ensures rc == 0 ==> (circular <==> config.kind.MultiLlCircular?)
      ensures rc == 0 ==> ctrl.srcWidth == config.srcWidth && ctrl.dstWidth == config.dstWidth && ctrl.rest == config.rest
      ensures rc == 0 ==> (reloadSrc <==> config.kind.MultiCont? && config.direction.PeripheralToMemory?)
      ensures rc == 0 ==> (reloadDst <==> config.kind.MultiCont? && config.direction.MemoryToPeripheral?)
      ensures rc != 0 ==> ctrl == old(ctrl) && reloadSrc == old(reloadSrc) && reloadDst == old(reloadDst)
      ensures rc != 0 ==> lliTail == old(lliTail) && perBuffer == old(perBuffer) && circular == old(circular)
      ensures rc == 0 ==> (ctrl.srcInc.Increment? <==> !config.direction.PeripheralToMemory?)
      ensures rc == 0 ==> (ctrl.dstInc.Increment? <==> !config.direction.MemoryToPeripheral?)
    {
      hide Channel.ListReady;
      rc := SetTransferType(config.kind, config.direction);
      if rc != 0 {
        return;
      }
      ctrl := ctrl.(srcWidth := config.srcWidth, dstWidth := config.dstWidth, rest := config.rest,
                    srcInc := if config.direction.PeripheralToMemory? then NoChange else Increment,
                    dstInc := if config.direction.MemoryToPeripheral? then NoChange else Increment);
      lliTail := 0;
      perBuffer := 1;
      circular := config.kind.MultiLlCircular?;
    }

    method SetTransferType(kind: TransferType, direction: Direction) returns (rc: int)
      modifies this`llp, this`chain, this`buffers, this`ctrl, this`reloadSrc, this`reloadDst
      ensures llp == 0 && chain == [] && buffers == []
      ensures rc == if kind.MultiCont? && direction.MemoryToMemory? then -EINVAL else 0
      ensures rc == 0 ==> ctrl.llpEn == (kind.MultiLl? || kind.MultiLlCircular?)
      ensures rc == 0 ==> (reloadSrc <==> kind.MultiCont? && direction.PeripheralToMemory?)
      ensures rc == 0 ==> (reloadDst <==> kind.MultiCont? && direction.MemoryToPeripheral?)
      ensures rc == 0 ==> ctrl == old(ctrl).(llpEn := ctrl.llpEn)
      ensures rc != 0 ==> ctrl == old(ctrl) && reloadSrc == old(reloadSrc) && reloadDst == old(reloadDst)
    {
      llp, chain, buffers := 0, [], [];
      match kind {
        case Single =>
          ctrl, reloadSrc, reloadDst := ctrl.(llpEn := false), false, false;
        case MultiCont =>
          if direction.MemoryToMemory? {
            return -EINVAL;
          }
          reloadSrc, reloadDst := direction.PeripheralToMemory?, !direction.PeripheralToMemory?;
          ctrl := ctrl.(llpEn := false);
        case _ =>
          ctrl, reloadSrc, reloadDst := ctrl.(llpEn := true), false, false;
      }
      return 0;
    }

    /** Fill in the client's items for one buffer. */
    method LinkedListInit(t: MultiTransfer, ctrl: CtrlLow, tail: nat) returns (lli: nat)
      requires t.Checked() && t.Allocated() && t.first != 0
      requires t.source < UINT32 && t.destination < UINT32
      modifies this`memory
      ensures lli == t.NodeAt(t.numBlocks - 1)
      ensures Linked(memory, t.NodeAddresses(), BufferBlocks(t, ctrl), tail)
      ensures KeptOutside(old(memory), memory, t)
    {
      hide BlockAt, StepOf, Linked;
      var sourceAddress: nat, destinationAddress: nat := t.source, t.destination;
      var sourceInc := StepOf(ctrl.srcInc, ctrl.srcWidth, t.blockSize);
      var destinationInc := StepOf(ctrl.dstInc, ctrl.dstWidth, t.blockSize);
      lli := t.first;
      FirstBlock(t, ctrl);
      var i := 0;
      while i < t.numBlocks
        invariant 0 <= i <= t.numBlocks
        invariant lli == t.NodeAt(if i < t.numBlocks then i else i - 1)
        invariant i < t.numBlocks ==> Block(sourceAddress, destinationAddress, ctrl, t.blockSize) == BlockAt(t, ctrl, i)
        invariant forall k: nat | k < i :: t.NodeAt(k) in memory && memory[t.NodeAt(k)] == NodeFor(t, ctrl, tail, k)
        invariant KeptOutside(old(memory), memory, t)
      {
        var block := Block(sourceAddress, destinationAddress, ctrl, t.blockSize);
        if i < t.numBlocks - 1 {
          memory := memory[lli := Node(block, lli + NODE_BYTES)];
          lli := lli + NODE_BYTES;
          NextBlock(t, ctrl, i);
          sourceAddress := (sourceAddress + sourceInc) % UINT32;
          destinationAddress := (destinationAddress + destinationInc) % UINT32;
        } else {
          memory := memory[lli := Node(block, tail)];
        }
        i := i + 1;
      }
      ItemsLinked(memory, t, ctrl, tail);
    }

    /** The first buffer of a list. */
    method StartList(t: MultiTransfer)
      requires llp == 0 && t.Checked() && t.Allocated() && t.first != 0
      requires t.source < UINT32 && t.destination < UINT32
      requires ctrl.llpEn && perBuffer == t.numBlocks
      modifies this`memory, this`llp, this`lliTail, this`chain, this`buffers
      ensures ListReady() && chain == t.NodeAddresses() && buffers == [t]
      ensures KeptOutside(old(memory), memory, t)
    {
      hide BlockAt, Linked, AllBlocks, Apart, BufferBlocks, MultiTransfer.NodeAddresses, MultiTransfer.NodeAt;
      OneBuffer(t, ListCtrl());
      var tail := if GetTransferType().MultiLlCircular? then t.first else 0;
      lliTail := LinkedListInit(t, ListCtrl(), tail);
      llp := t.first;
      chain, buffers := t.NodeAddresses(), [t];
    }

    /** A further buffer, behind the ones configured before. */
    method AppendToList(t: MultiTransfer)
      requires ListReady() && t.Checked() && t.Allocated() && t.first != 0 && Clear(chain, t)
      requires t.source < UINT32 && t.destination < UINT32
      requires perBuffer == t.numBlocks
      modifies this`memory, this`lliTail, this`chain, this`buffers
      ensures ListReady() && chain == old(chain) + t.NodeAddresses() && buffers == old(buffers) + [t]
      ensures forall a | a in old(memory) && a != old(lliTail) && (a < t.first || t.NodeAt(t.numBlocks) <= a) ::
        a in memory && memory[a] == old(memory)[a]
    {
      hide AllBlocks, Apart, BufferBlocks, MultiTransfer.NodeAddresses, MultiTransfer.NodeAt, Clear, Linked;
      ghost var was := memory;
      OneBuffer(t, ListCtrl());
      TailItem(memory, chain, buffers, ListCtrl(), End());
      var tail := memory[lliTail].link;
      var tailCtrl := memory[lliTail].block.ctrl;
      memory := memory[lliTail := memory[lliTail].(link := t.first)];
      ghost var redirected := memory;
      lliTail := LinkedListInit(t, tailCtrl, tail);
      Appended(was, redirected, memory, chain, buffers, ListCtrl(), End(), t);
      chain, buffers := chain + t.NodeAddresses(), buffers + [t];
    }

    /** Following the links from the LLP register visits the blocks of all buffers,
        in the order of the calls: once, or again and again on a circular list.  Every
        block raises an interrupt, and has the channel's widths and increments. */
    lemma FollowingLinks(steps: nat)
      requires Configured() && llp != 0
      ensures forall b | b in AllBlocks(buffers, ListCtrl()) :: b.ctrl == ctrl.(intEn := true)
      ensures var blocks := AllBlocks(buffers, ListCtrl());
        if circular then
          && blocks != [] && |Visit(memory, llp, steps)| == steps
          && forall j | 0 <= j < steps :: Visit(memory, llp, steps)[j] == blocks[j % |blocks|]
        else
          steps >= |blocks| ==> Visit(memory, llp, steps) == blocks
    {
      var blocks := AllBlocks(buffers, ListCtrl());
      AllHaveCtrl(buffers, ListCtrl());
      if circular {
        VisitCircular(memory, chain, blocks, 0, steps);
        OnRing(|chain|);
        NextIndex(0, |chain|);
      } else if steps >= |blocks| {
        VisitLinear(memory, chain, blocks, 0, steps);
      }
    }

    /** Configure one more buffer.  The client's items, if it gives any, are memory
        of their own. */
    method MultiTransferSetConfig(t: MultiTransfer) returns (rc: int)
      requires Configured()
      requires t.source < UINT32 && t.destination < UINT32 && t.numBlocks < UINT16
      requires t.first != 0 ==> t.Allocated() && Clear(chain, t)
      modifies this`memory, this`llp, this`lliTail, this`chain, this`buffers,
        this`perBuffer, this`pending, this`source, this`destination, this`blockTs
      ensures Configured()
      ensures rc == 0 || rc == -EINVAL
      ensures rc == 0 <==>
        && t.source != 0 && t.destination != 0 && 1 <= t.blockSize <= 4095 && t.numBlocks > 0
        && (ctrl.llpEn ==> t.first != 0 && t.first % 4 == 0 && (old(llp) != 0 ==> t.numBlocks == old(perBuffer)))
        && (!ctrl.llpEn ==> reloadSrc || reloadDst)
      ensures rc != 0 ==> memory == old(memory) && llp == old(llp) && chain == old(chain) && buffers == old(buffers)
      ensures rc == 0 && ctrl.llpEn ==>
        llp != 0 && buffers == old(buffers) + [t] && chain == old(chain) + t.NodeAddresses() && perBuffer == t.numBlocks
      ensures rc == 0 && !ctrl.llpEn ==>
        && llp == 0 && perBuffer == pending == t.numBlocks
        && source == t.source && destination == t.destination && blockTs == t.blockSize
        && lliTail == old(lliTail)
      ensures perBuffer == if t.Checked() && old(llp) == 0 then t.numBlocks else old(perBuffer)
      ensures pending == // set although the call may yet be refused
        if !t.Checked() then old(pending)
        else if ctrl.llpEn && !circular && old(llp) == 0 then 0
        else t.numBlocks
    {
      hide Linked, AllBlocks, Apart, Clear;
      if !t.Checked() {
        return -EINVAL;
      }
      var kind := GetTransferType();
      if llp == 0 {
        perBuffer := t.numBlocks;
      }
      pending := t.numBlocks;
      if kind.Single? {
        return -EINVAL;
      }
      if kind.MultiCont? {
        source, destination, blockTs := t.source, t.destination, t.blockSize;
        return 0;
      }
      if kind.MultiLl? && llp == 0 {
        // One callback is enough, and it comes with the end of the transfer.
        pending := 0;
      }
      rc := ConfigureList(t);
    }

    /** The part that circular and linear lists share. */
    method ConfigureList(t: MultiTransfer) returns (rc: int)
      requires Configured() && ctrl.llpEn && t.Checked() && (llp == 0 ==> perBuffer == t.numBlocks)
      requires t.source < UINT32 && t.destination < UINT32
      requires t.first != 0 ==> t.Allocated() && Clear(chain, t)
      modifies this`memory, this`llp, this`lliTail, this`chain, this`buffers
      ensures Configured()
      ensures rc == if t.first != 0 && t.first % 4 == 0 && perBuffer == t.numBlocks then 0 else -EINVAL
      ensures rc != 0 ==> memory == old(memory) && llp == old(llp) && chain == old(chain) && buffers == old(buffers)
      ensures rc == 0 ==> llp != 0 && buffers == old(buffers) + [t] && chain == old(chain) + t.NodeAddresses()
    {
      hide Linked, AllBlocks, Apart, Clear;
      if t.first == 0 || t.first % 4 != 0 {
        return -EINVAL;
      }
      if llp == 0 {
        StartList(t);
      } else {
        if perBuffer != t.numBlocks {
          return -EINVAL;
        }
        AppendToList(t);
      }
      return 0;
    }

    // -------------------------------------------------------------------------
    // Running
    // -------------------------------------------------------------------------

    /** The length a callback is given: from the list's last item, or from the
        channel's registers if there is no list. */
    function GetTransferLength(): nat
      requires lliTail != 0 ==> lliTail in memory
      reads this
    {
      if lliTail == 0 then Reported(blockTs, perBuffer, ctrl.srcWidth)
      else var block := memory[lliTail].block; Reported(block.size, perBuffer, block.ctrl.srcWidth)
    }

    /** The blocks of the buffers configured, in the order of the calls. */
    ghost function Listed(): seq<Block>
      reads this
    {
      AllBlocks(buffers, ListCtrl())
    }

    /** The length reported for every buffer of a list. */
    ghost function LastLength(): nat
      reads this
    {
      if buffers == [] then 0 else Reported(buffers[|buffers| - 1].blockSize, perBuffer, ctrl.srcWidth)
    }

    /** Start the channel.  Block interrupts are let in only if blocks are counted. */
    method TransferStart()
      requires Configured()
      modifies this`tfrUnmasked, this`blockUnmasked, this`ctrl, this`enabled, this`moved, this`callbacks
      ensures tfrUnmasked && enabled && blockUnmasked == (pending > 0)
      ensures ctrl == old(ListCtrl()) == old(ctrl).(intEn := true) && moved == [] && callbacks == []
    {
      tfrUnmasked := true;
      if pending > 0 {
        blockUnmasked := true;
      }
      ctrl := ctrl.(intEn := true);
      enabled := true;
      moved, callbacks := [], [];
    }

    /** The interrupt handler, given the two status bits. */
    method IsrHandler(tfr: bool, block: bool)
      requires lliTail != 0 ==> lliTail in memory
      requires pending < UINT16
      modifies this`blockUnmasked, this`tfrUnmasked, this`llp, this`callbacks, this`pending, this`reloadSrc, this`reloadDst
      ensures tfr ==>
        && callbacks == old(callbacks) + [GetTransferLength()] && pending == old(pending)
        && llp == 0 && !blockUnmasked && !tfrUnmasked && reloadSrc == old(reloadSrc) && reloadDst == old(reloadDst)
      ensures !tfr ==> llp == old(llp) && blockUnmasked == old(blockUnmasked) && tfrUnmasked == old(tfrUnmasked)
      ensures !tfr && !block ==> callbacks == old(callbacks) && pending == old(pending)
      ensures !tfr && block && lliTail != 0 ==>
        if old(pending) == 1 then callbacks == old(callbacks) + [GetTransferLength()] && pending == perBuffer
        else callbacks == old(callbacks) && pending == (old(pending) + UINT16 - 1) % UINT16
      ensures !tfr && block && lliTail == 0 ==>
        && callbacks == old(callbacks) && pending == (old(pending) + UINT16 - 1) % UINT16
        && (reloadSrc <==> old(reloadSrc) && pending != 1) && (reloadDst <==> old(reloadDst) && pending != 1)
      ensures lliTail != 0 || !block ==> reloadSrc == old(reloadSrc) && reloadDst == old(reloadDst)
    {
      var length := GetTransferLength();
      if tfr {
        blockUnmasked, tfrUnmasked := false, false;
        llp := 0;
        callbacks := callbacks + [length];
      } else if block {
        pending := (pending + UINT16 - 1) % UINT16;
        if lliTail != 0 && pending == 0 {
          callbacks := callbacks + [length];
          pending := perBuffer;
        } else if lliTail == 0 {
          if pending == 1 {
            // The block under way is the last but one: do not reload after the next.
            reloadSrc, reloadDst := false, false;
          }
        }
      }
    }

    /** The controller moves the block of the current list item and loads the link;
        whatever interrupt that raises is served before the next block ends. */
    method ListBlock()
      requires enabled && tfrUnmasked && llp in memory && lliTail != 0 && lliTail in memory
      requires pending < UINT16 && perBuffer < UINT16
      modifies this`blockUnmasked, this`tfrUnmasked, this`llp, this`callbacks, this`pending,
        this`reloadSrc, this`reloadDst, this`enabled, this`moved
      ensures moved == old(moved) + [memory[old(llp)].block]
      ensures llp == memory[old(llp)].link && enabled == (llp != 0)
      ensures enabled ==> tfrUnmasked && blockUnmasked == old(blockUnmasked)
      ensures enabled && !blockUnmasked ==> callbacks == old(callbacks) && pending == old(pending)
      ensures enabled && blockUnmasked ==>
        if old(pending) == 1 then callbacks == old(callbacks) + [GetTransferLength()] && pending == perBuffer
        else callbacks == old(callbacks) && pending == (old(pending) + UINT16 - 1) % UINT16
      ensures !enabled ==> callbacks == old(callbacks) + [GetTransferLength()] && !tfrUnmasked && !blockUnmasked
      ensures !enabled ==> pending == old(pending)
    {
      var node := memory[llp];
      moved := moved + [node.block];
      llp := node.link;
      enabled := llp != 0;
      IsrHandler(!enabled && tfrUnmasked, blockUnmasked);
    }

    /** The same, as block k of a run whose counter started at p. */
    method CountedBlock(ghost k: nat, ghost n: nat, ghost p: nat, ghost length: nat)
      requires enabled && tfrUnmasked && llp in memory && lliTail != 0 && lliTail in memory
      requires 0 < n == perBuffer < UINT16 && pending < UINT16 && GetTransferLength() == length
      requires Counted(k, n, p, length, callbacks, pending) && blockUnmasked == (p > 0)
      modifies this`blockUnmasked, this`tfrUnmasked, this`llp, this`callbacks, this`pending,
        this`reloadSrc, this`reloadDst, this`enabled, this`moved
      ensures moved == old(moved) + [memory[old(llp)].block]
      ensures llp == memory[old(llp)].link && enabled == (llp != 0)
      ensures tfrUnmasked == enabled && blockUnmasked == (enabled && p > 0) && pending < UINT16
      ensures enabled ==> Counted(k + 1, n, p, length, callbacks, pending)
      ensures !enabled ==> callbacks == Repeat(length, Reports(k, n, p) + 1)
    {
      hide Counted, Reported, Repeat, Reports;
      CountOn(k, n, p, length, callbacks, pending);
      AsCounted(k, n, p, length, callbacks, pending);
      if p > 0 {
        PendingBound(k, n, p, length, callbacks, pending);
      }
      ListBlock();
    }

    /** A linear list moves the blocks of every buffer once, in order, and calls the
        client whenever the counter runs out and at the end; that is once for each
        buffer, at its end, if the counter Counts. */
    method RunLinear()
      requires Configured() && llp != 0 && !circular && perBuffer < UINT16 && pending < UINT16
      modifies this`blockUnmasked, this`tfrUnmasked, this`llp, this`callbacks, this`pending, this`ctrl,
        this`reloadSrc, this`reloadDst, this`enabled, this`moved, this`chain, this`buffers
      ensures moved == old(Listed())
      ensures callbacks == Repeat(old(LastLength()), LinearReports(|moved|, perBuffer, old(pending)))
      ensures Counts(perBuffer, |old(buffers)|, old(pending)) ==>
        callbacks == Repeat(old(LastLength()), |old(buffers)|)
      ensures Configured() && llp == 0
    {
      ghost var items, blocks, n, p, length := chain, Listed(), perBuffer, pending, LastLength();
      ListFacts();
      NothingCounted(n, length, p);
      LinearReportsExact(n, |buffers|, p);
      hide Linked, AllBlocks, Apart, Reported, Counted, Reports, LinearReports, Counts, Channel.ListReady,
        Channel.Configured, Channel.Listed, Channel.LastLength, Channel.GetTransferLength;
      TransferStart();
      while enabled
        invariant ctrl == old(ListCtrl()) && GetTransferLength() == length
        invariant InLinear(items, blocks, n, p, length)
        decreases |items| - |moved|
      {
        LinearBlock(items, blocks, n, p, length);
      }
      assert blocks[..|blocks|] == blocks;
      chain, buffers := [], [];
      Stopped();
    }

    /** Part-way through a linear list, or at its end. */
    ghost predicate InLinear(items: seq<nat>, blocks: seq<Block>, n: nat, p: nat, length: nat)
      requires n > 0
      reads this
    {
      && |moved| <= |items| == |blocks| && enabled == (|moved| < |items|) && moved == blocks[..|moved|]
      && llp == (if enabled then items[|moved|] else 0)
      && tfrUnmasked == enabled && blockUnmasked == (enabled && p > 0) && pending < UINT16
      && if enabled then Counted(|moved|, n, p, length, callbacks, pending)
         else callbacks == Repeat(length, LinearReports(|items|, n, p))
    }

    method LinearBlock(ghost items: seq<nat>, ghost blocks: seq<Block>, ghost n: nat, ghost p: nat, ghost length: nat)
      requires enabled && lliTail != 0 && lliTail in memory && 0 < n == perBuffer < UINT16
      requires GetTransferLength() == length && Linked(memory, items, blocks, 0)
      requires InLinear(items, blocks, n, p, length)
      modifies this`blockUnmasked, this`tfrUnmasked, this`llp, this`callbacks, this`pending,
        this`reloadSrc, this`reloadDst, this`enabled, this`moved
      ensures InLinear(items, blocks, n, p, length) && |moved| == |old(moved)| + 1
    {
      hide Linked, Counted, Reports, Repeat, Channel.GetTransferLength;
      ghost var k := |moved|;
      ItemIs(memory, items, blocks, 0, k);
      if k + 1 < |items| {
        ItemIs(memory, items, blocks, 0, k + 1);
      }
      CountedBlock(k, n, p, length);
      assert blocks[..k + 1] == blocks[..k] + [blocks[k]];
    }

    // What a list that is ready has to offer.
    lemma ListFacts()
      requires Configured() && llp != 0
      ensures perBuffer > 0 && buffers != [] && chain != [] && llp == chain[0]
      ensures Linked(memory, chain, Listed(), End()) && |chain| == |Listed()| == perBuffer * |buffers|
      ensures lliTail != 0 && lliTail in memory && GetTransferLength() == LastLength()
    {
      assert forall t | t in buffers :: t.numBlocks > 0;
      hide Reported, Apart;
      TailItem(memory, chain, buffers, ListCtrl(), End());
    }

    /** A circular list goes round and round and calls the client whenever the counter
        runs out: after any number of blocks once for every buffer's worth of them, if
        the counter starts right. */
    method RunCircular(steps: nat)
      requires Configured() && llp != 0 && circular && perBuffer < UINT16 && pending < UINT16
      modifies this`blockUnmasked, this`tfrUnmasked, this`llp, this`callbacks, this`pending, this`ctrl,
        this`reloadSrc, this`reloadDst, this`enabled, this`moved
      ensures enabled && perBuffer > 0 && moved == Looped(old(Listed()), steps)
      ensures callbacks == Repeat(old(LastLength()), Reports(steps, perBuffer, old(pending)))
      ensures old(pending) == perBuffer ==> callbacks == Repeat(old(LastLength()), steps / perBuffer)
    {
      ghost var items, blocks, n, p, length := chain, Listed(), perBuffer, pending, LastLength();
      ListFacts();
      NothingCounted(n, length, p);
      RingStarts(|items|);
      CircularReports(n, p);
      hide Linked, AllBlocks, Apart, Reported, Counted, Reports, Around, Channel.ListReady, Channel.Configured,
        Channel.Listed, Channel.LastLength, Channel.GetTransferLength;
      TransferStart();
      var k := 0;
      while k < steps
        invariant k == |moved| <= steps && ctrl == old(ListCtrl()) && GetTransferLength() == length
        invariant InCircle(items, blocks, n, p, length)
      {
        CircularBlock(items, blocks, n, p, length);
        k := k + 1;
      }
      AsCounted(steps, n, p, length, callbacks, pending);
      assert moved == Looped(blocks, steps);
    }

    /** Somewhere on a circular list. */
    ghost predicate InCircle(items: seq<nat>, blocks: seq<Block>, n: nat, p: nat, length: nat)
      requires n > 0
      reads this
    {
      && items != [] && |items| == |blocks| && enabled
      && (forall i | 0 <= i < |moved| :: moved[i] == blocks[Around(i, |blocks|)])
      && llp == items[Around(|moved|, |items|)]
      && tfrUnmasked && blockUnmasked == (p > 0) && pending < UINT16
      && Counted(|moved|, n, p, length, callbacks, pending)
    }

    method CircularBlock(ghost items: seq<nat>, ghost blocks: seq<Block>, ghost n: nat, ghost p: nat, ghost length: nat)
      requires lliTail != 0 && lliTail in memory && 0 < n == perBuffer < UINT16
      requires items != [] && GetTransferLength() == length && Linked(memory, items, blocks, items[0])
      requires InCircle(items, blocks, n, p, length)
      modifies this`blockUnmasked, this`tfrUnmasked, this`llp, this`callbacks, this`pending,
        this`reloadSrc, this`reloadDst, this`enabled, this`moved
      ensures InCircle(items, blocks, n, p, length) && |moved| == |old(moved)| + 1
    {
      hide Linked, Counted, Reports, Repeat, Around, Channel.GetTransferLength;
      ghost var k := |moved|;
      ItemIs(memory, items, blocks, items[0], Around(k, |items|));
      RingOn(k, |items|);
      ItemIs(memory, items, blocks, items[0], Around(k + 1, |items|));
      CountedBlock(k, n, p, length);
    }

    /** The controller moves one block of a contiguous transfer and, at its end,
        looks at the reload bits.  The reloaded side is the peripheral, whose
        address does not step. */
    method ContiguousBlock()
      requires enabled && tfrUnmasked && blockUnmasked && lliTail == 0 && pending < UINT16
      modifies this`blockUnmasked, this`tfrUnmasked, this`llp, this`callbacks, this`pending,
        this`reloadSrc, this`reloadDst, this`enabled, this`moved, this`source, this`destination
      ensures moved == old(moved) + [Block(old(source), old(destination), ctrl, blockTs)]
      ensures source == (old(source) + StepOf(ctrl.srcInc, ctrl.srcWidth, blockTs)) % UINT32
      ensures destination == (old(destination) + StepOf(ctrl.dstInc, ctrl.dstWidth, blockTs)) % UINT32
      ensures enabled == (old(reloadSrc) || old(reloadDst))
      ensures enabled ==>
        && pending == (old(pending) + UINT16 - 1) % UINT16 && (reloadSrc || reloadDst <==> pending != 1)
        && tfrUnmasked && blockUnmasked && callbacks == old(callbacks) && llp == old(llp)
      ensures !enabled ==>
        && callbacks == old(callbacks) + [GetTransferLength()] && llp == 0
        && !tfrUnmasked && !blockUnmasked && !reloadSrc && !reloadDst
    {
      moved := moved + [Block(source, destination, ctrl, blockTs)];
      source := (source + StepOf(ctrl.srcInc, ctrl.srcWidth, blockTs)) % UINT32;
      destination := (destination + StepOf(ctrl.dstInc, ctrl.dstWidth, blockTs)) % UINT32;
      enabled := reloadSrc || reloadDst;
      IsrHandler(!enabled && tfrUnmasked, blockUnmasked);
    }

    /** A contiguous transfer moves ContiguousCount(n) blocks, calls the client once
        at the end, and leaves a channel that has to be set up again. */
    method RunContiguous(ghost t: MultiTransfer)
      requires Configured() && GetTransferType().MultiCont? && lliTail == 0
      requires perBuffer == pending == t.numBlocks < UINT16 && t.numBlocks > 0
      requires source == t.source < UINT32 && destination == t.destination < UINT32 && blockTs == t.blockSize
      modifies this`blockUnmasked, this`tfrUnmasked, this`llp, this`callbacks, this`pending, this`ctrl,
        this`reloadSrc, this`reloadDst, this`enabled, this`moved, this`source, this`destination
      ensures Configured() && GetTransferType() == Single
      ensures moved == Blocks(t, old(ListCtrl()), ContiguousCount(t.numBlocks))
      ensures callbacks == [Reported(t.blockSize, t.numBlocks, ctrl.srcWidth)]
    {
      ghost var c := ListCtrl();
      NoListLeft();
      ContiguousStarts(t, c);
      hide StepOf, Reported, Channel.ListReady, Channel.Configured, Channel.GetTransferType, ContiguousAt, BlocksLeft, Blocks;
      TransferStart();
      while enabled
        invariant ctrl == c && llp == 0
        invariant enabled ==> ContiguousAt(t, c, moved, source, destination, pending, reloadSrc || reloadDst)
        invariant enabled ==> tfrUnmasked && blockUnmasked && callbacks == []
        invariant !enabled ==>
          && moved == Blocks(t, c, ContiguousCount(t.numBlocks))
          && callbacks == [Reported(t.blockSize, t.numBlocks, c.srcWidth)]
          && !tfrUnmasked && !blockUnmasked && !reloadSrc && !reloadDst
        decreases if enabled then BlocksLeft(pending, reloadSrc || reloadDst) else 0
      {
        ContiguousOn(t, c, moved, source, destination, pending, reloadSrc || reloadDst);
        ContiguousBlock();
      }
      Stopped();
    }

    lemma NoListLeft()
      requires Configured() && GetTransferType().MultiCont?
      ensures llp == 0 && chain == [] && buffers == [] && !ctrl.llpEn && (reloadSrc || reloadDst)
    {
    }

    lemma Stopped()
      requires !enabled && !blockUnmasked && !tfrUnmasked && llp == 0 && chain == [] && buffers == []
      ensures Configured()
      ensures !ctrl.llpEn && !reloadSrc && !reloadDst ==> GetTransferType() == Single
    {
    }
  }
}
