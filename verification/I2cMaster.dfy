/** Interrupt-driven I2C master transfer.

    The driver's handlers are written against the controller's registers, and the
    controller goes on working between any two register accesses: every access is
    preceded by a call of Hardware, which lets it take any number of steps.  A
    command leaves the TX FIFO, is in flight, and is then complete; a completed
    read command delivers one byte, chosen by the slave, to the RX FIFO.

    `ic_intr_stat` is the raw status and the mask, as in the controller. */
module I2cMaster {
  import opened Bits

  const TX_TL: nat := 2
  const RX_TL: nat := 5
  const TAR_MASK: nat := 0x3ff
  const EINVAL: int := 22

  /** A word written to ic_data_cmd. */
  datatype Cmd = Send(byte: Byte, stop: bool) | Fetch(stop: bool)

  datatype InFlight = Nothing | Busy(cmd: Cmd)

  /** The transfer asked for; `given` says whether the tx pointer is not null. */
  datatype Transfer = Transfer(tx: seq<Byte>, given: bool, rxLen: nat, stop: bool) {
    function Size(): nat {
      |tx| + rxLen
    }

    function CommandAt(i: nat): Cmd
      requires i < Size()
    {
      if i < |tx| then Send(tx[i], stop && i + 1 == Size()) else Fetch(stop && i + 1 == Size())
    }

    /** What has to be put on the bus: the bytes in order, then one read command
        for each byte wanted, and STOP with the last of them if asked for. */
    function Commands(): (s: seq<Cmd>)
      ensures |s| == Size()
    {
      seq(Size(), i requires 0 <= i < Size() => CommandAt(i))
    }

    predicate WellFormed() {
      tx != [] ==> given
    }

    /** A transfer without a tx buffer and with nothing to read is the one the
        handler never reports. */
    predicate Reportable() {
      given || rxLen > 0
    }
  }

  /** A call of the client's callback: the number of bytes it is told. */
  datatype Callback = Idle(len: nat)

  // ---------------------------------------------------------------------------
  // State
  // ---------------------------------------------------------------------------

  datatype Registers = Registers(txTl: nat, rxTl: nat, maskRxFull: bool, maskTxEmpty: bool, enabled: bool)

  /** The FIFOs and the bus; overflows are remembered. */
  datatype Hardware = Hardware(txFifo: seq<Cmd>, inFlight: InFlight, rxFifo: seq<Byte>, txOver: bool, rxOver: bool)

  /** Everything written to ic_data_cmd, how many of those words have left the TX
      FIFO, every byte the slave has delivered, and whether the byte in flight still
      belongs to the transfer before. */
  datatype History = History(pushed: seq<Cmd>, popped: nat, received: seq<Byte>, stray: bool)

  // The two bits of ic_intr_stat the handler looks at.
  predicate RxFull(regs: Registers, hw: Hardware) {
    regs.enabled && |hw.rxFifo| > regs.rxTl && regs.maskRxFull
  }

  predicate TxEmpty(regs: Registers, hw: Hardware) {
    regs.enabled && |hw.txFifo| <= regs.txTl && regs.maskTxEmpty
  }

  /** One instant of the driver and the controller; `taken` is what the driver has
      stored in the client's buffer. */
  datatype State = State(fifoSize: nat, xfer: Transfer, writePos: nat, readPos: nat, readCmdSend: nat,
                         callbacks: seq<Callback>, regs: Registers, hw: Hardware, history: History, taken: seq<Byte>) {

    /** Words written so far. */
    function Issued(): int {
      writePos + xfer.rxLen - readCmdSend
    }

    /** Commands the hardware is through with. */
    function Completed(): int {
      history.popped - (if hw.inFlight.Busy? && !history.stray then 1 else 0)
    }

    /** Read commands issued whose byte the driver has not taken yet. */
    function Missing(): int {
      xfer.rxLen - readPos - readCmdSend
    }

    ghost predicate PushedInOrder() {
      |history.pushed| == Issued() <= xfer.Size()
      && forall i | 0 <= i < |history.pushed| :: history.pushed[i] == xfer.CommandAt(i)
    }

    /** The FIFO holds what has been pushed and not popped; the command in flight
        is the last one popped, or a byte that the transfer before has sent. */
    ghost predicate PipeInOrder() {
      && history.popped <= |history.pushed|
      && hw.txFifo == history.pushed[history.popped..]
      && (hw.inFlight.Busy? && !history.stray ==>
            history.popped > 0 && hw.inFlight.cmd == history.pushed[history.popped - 1])
      && (history.stray ==> history.popped == 0 && hw.inFlight.Busy? && hw.inFlight.cmd.Send?)
    }

    /** One byte for every completed read command, in order, first to the RX FIFO
        and then to the buffer. */
    ghost predicate BytesInOrder() {
      && |history.received| == (if Completed() > |xfer.tx| then Completed() - |xfer.tx| else 0)
      && readPos <= |history.received|
      && hw.rxFifo == history.received[readPos..]
      && taken == history.received[..readPos]
    }

    ghost predicate FlowControlled() {
      && 0 <= Missing() <= fifoSize && |hw.txFifo| <= fifoSize
      && !hw.txOver && !hw.rxOver
      && regs.txTl <= TX_TL && regs.rxTl <= RX_TL < fifoSize
    }

    /** RX_FULL will be raised before the bytes still to read run out. */
    predicate WakesUp() {
      readPos < xfer.rxLen ==> regs.rxTl + 1 <= xfer.rxLen - readPos
    }

    /** What holds at every register access. */
    ghost predicate Running() {
      && writePos <= |xfer.tx| && readPos <= xfer.rxLen && readCmdSend <= xfer.rxLen
      && (writePos < |xfer.tx| ==> readCmdSend == xfer.rxLen)
      && PushedInOrder() && PipeInOrder() && BytesInOrder() && FlowControlled()
    }

    predicate Finished() {
      callbacks != []
    }

    /** Nothing more is asked of the driver: everything was issued and received,
        the client was told once, and no interrupt will be raised again. */
    ghost predicate Concluded() {
      && callbacks == [Idle(if xfer.rxLen > 0 then xfer.rxLen else |xfer.tx|)]
      && writePos == |xfer.tx| && readCmdSend == 0 && readPos == xfer.rxLen
      && hw.txFifo == [] && !regs.maskTxEmpty && (xfer.rxLen > 0 ==> !regs.maskRxFull)
      && regs.enabled == !xfer.stop && (xfer.stop ==> hw.inFlight.Nothing?)
    }

    ghost predicate Underway() {
      && callbacks == [] && regs.enabled && regs.maskTxEmpty && regs.maskRxFull
      && (xfer.rxLen > 0 ==> readPos < xfer.rxLen)
    }

    /** What holds between two interrupts. */
    ghost predicate Valid() {
      Running() && WakesUp() && (Concluded() || Underway())
    }

    predicate RxFullStat() {
      RxFull(regs, hw)
    }

    predicate TxEmptyStat() {
      TxEmpty(regs, hw)
    }

    /** The handler would issue a read command. */
    predicate HasRoomToAsk() {
      writePos == |xfer.tx| && readCmdSend > 0 && fifoSize - |hw.txFifo| > Missing()
    }

    predicate HardwareIdle() {
      hw.inFlight.Nothing? && (hw.txFifo == [] || !regs.enabled)
    }

    /** Under way, with the controller at rest. */
    ghost predicate Stalled() {
      Underway() && HardwareIdle() && xfer.Reportable()
    }

    /** TX_EMPTY has a word to write, a read to issue, or the end to report. */
    predicate MoreToDo() {
      writePos < |xfer.tx| || xfer.rxLen == 0 || HasRoomToAsk()
    }

    /** Work left: issuing, starting, completing and reading take a unit each (the
        start frees two and puts one in flight), and so does the final report. */
    function Work(): int {
      (xfer.Size() - Issued()) + 2 * (xfer.Size() - history.popped) + (if hw.inFlight.Busy? then 1 else 0)
      + (xfer.rxLen - readPos) + (if Finished() then 0 else 1)
    }
  }

  // ---------------------------------------------------------------------------
  // Atomic steps
  // ---------------------------------------------------------------------------

  /** One step of the hardware; `byte` is what the slave answers to a read. */
  function HardwareStepped(hw: Hardware, fifoSize: nat, enabled: bool, byte: Byte): Hardware {
    match hw.inFlight
    case Busy(Send(_, _)) => hw.(inFlight := Nothing)
    case Busy(Fetch(_)) =>
      if |hw.rxFifo| < fifoSize then hw.(inFlight := Nothing, rxFifo := hw.rxFifo + [byte])
      else hw.(inFlight := Nothing, rxOver := true)
    case Nothing =>
      if enabled && hw.txFifo != [] then hw.(inFlight := Busy(hw.txFifo[0]), txFifo := hw.txFifo[1..])
      else hw
  }

  /** The step as the record of the transfer sees it. */
  function HistoryStepped(s: State, byte: Byte): History {
    if s.hw.inFlight.Busy? then
      if s.hw.inFlight.cmd.Fetch? then s.history.(received := s.history.received + [byte], stray := false)
      else s.history.(stray := false)
    else if s.regs.enabled && s.hw.txFifo != [] then s.history.(popped := s.history.popped + 1)
    else s.history
  }

  function HardwareNext(s: State, byte: Byte): State {
    s.(hw := HardwareStepped(s.hw, s.fifoSize, s.regs.enabled, byte), history := HistoryStepped(s, byte))
  }

  /** A write to ic_data_cmd. */
  function Push(s: State, cmd: Cmd): State {
    if |s.hw.txFifo| < s.fifoSize then
      s.(hw := s.hw.(txFifo := s.hw.txFifo + [cmd]), history := s.history.(pushed := s.history.pushed + [cmd]))
    else
      s.(hw := s.hw.(txOver := true))
  }

  /** A read of ic_data_cmd, stored at the read position. */
  function Take(s: State): State
    requires s.hw.rxFifo != []
  {
    s.(hw := s.hw.(rxFifo := s.hw.rxFifo[1..]), readPos := s.readPos + 1, taken := s.taken + [s.hw.rxFifo[0]])
  }

  lemma StartKeeps(s: State, byte: Byte)
    requires s.Running() && s.hw.inFlight.Nothing? && s.regs.enabled && s.hw.txFifo != []
    ensures HardwareNext(s, byte).Running()
  {
    var t := HardwareNext(s, byte);
    assert t.hw.txFifo == t.history.pushed[t.history.popped..];
  }

  lemma SentKeeps(s: State, byte: Byte)
    requires s.Running() && s.hw.inFlight.Busy? && s.hw.inFlight.cmd.Send?
    ensures HardwareNext(s, byte).Running()
  {
    if !s.history.stray {
      assert s.hw.inFlight.cmd == s.xfer.CommandAt(s.history.popped - 1);
    }
  }

  // There is always room for the byte a read command brings.
  lemma FetchedKeeps(s: State, byte: Byte)
    requires s.Running() && s.hw.inFlight.Busy? && s.hw.inFlight.cmd.Fetch?
    ensures |s.hw.rxFifo| < s.fifoSize
    ensures HardwareNext(s, byte).Running()
  {
    assert s.hw.inFlight.cmd == s.xfer.CommandAt(s.history.popped - 1);
    var t := HardwareNext(s, byte);
    assert t.taken == t.history.received[..t.readPos];
    assert t.hw.rxFifo == t.history.received[t.readPos..];
  }

  /** The hardware respects the invariant, loses nothing, and always moves on. */
  lemma HardwareKeeps(s: State, byte: Byte)
    requires s.Running()
    ensures var t := HardwareNext(s, byte);
      && t.Running()
      && (if s.HardwareIdle() then t == s else t.Work() < s.Work())
      && s.hw.rxFifo <= t.hw.rxFifo && |t.hw.txFifo| <= |s.hw.txFifo|
  {
    hide State.PushedInOrder, State.PipeInOrder, State.BytesInOrder;
    if s.hw.inFlight.Busy? {
      if s.hw.inFlight.cmd.Send? {
        SentKeeps(s, byte);
      } else {
        FetchedKeeps(s, byte);
      }
    } else if s.regs.enabled && s.hw.txFifo != [] {
      StartKeeps(s, byte);
    }
  }

  lemma PushSendKeeps(s: State)
    requires s.Running() && s.writePos < |s.xfer.tx| && |s.hw.txFifo| < s.fifoSize
    ensures var t := Push(s, s.xfer.CommandAt(s.writePos)).(writePos := s.writePos + 1);
      t.Running() && t.Work() < s.Work()
  {
  }

  lemma PushFetchKeeps(s: State)
    requires s.Running() && s.writePos == |s.xfer.tx| && s.readCmdSend > 0
    requires |s.hw.txFifo| < s.fifoSize && s.Missing() < s.fifoSize
    ensures var t := Push(s, Fetch(s.xfer.stop && s.readCmdSend == 1)).(readCmdSend := s.readCmdSend - 1);
      t.Running() && t.Work() < s.Work()
  {
    var cmd := Fetch(s.xfer.stop && s.readCmdSend == 1);
    assert cmd == s.xfer.CommandAt(s.Issued());
    var t := Push(s, cmd).(readCmdSend := s.readCmdSend - 1);
    assert t.PushedInOrder() by {
      hide State.PipeInOrder, State.BytesInOrder, State.FlowControlled;
    }
    assert t.PipeInOrder() by {
      hide State.BytesInOrder, State.FlowControlled;
    }
    assert t.BytesInOrder() by {
      hide State.PushedInOrder, State.PipeInOrder, State.FlowControlled;
    }
    hide State.PipeInOrder, State.BytesInOrder;
  }

  lemma TakeKeeps(s: State)
    requires s.Running() && s.hw.rxFifo != [] && s.readPos < s.xfer.rxLen
    ensures s.readPos < |s.history.received|
    ensures var t := Take(s);
      t.Running() && t.Work() < s.Work()
  {
    var t := Take(s);
    assert t.taken == t.history.received[..t.readPos];
    assert t.hw.rxFifo == t.history.received[t.readPos..];
  }

  // The order of words and bytes does not depend on thresholds, masks and reports.
  lemma RegistersKeep(s: State, regs: Registers, callbacks: seq<Callback>)
    requires s.Running() && regs.txTl <= TX_TL && regs.rxTl <= RX_TL
    ensures s.(regs := regs, callbacks := callbacks).Running()
  {
    var t := s.(regs := regs, callbacks := callbacks);
    assert t.PushedInOrder() by {
      hide State.PipeInOrder, State.BytesInOrder, State.FlowControlled;
    }
    assert t.PipeInOrder() by {
      hide State.PushedInOrder, State.BytesInOrder, State.FlowControlled;
    }
    assert t.BytesInOrder() by {
      hide State.PushedInOrder, State.PipeInOrder, State.FlowControlled;
    }
    hide State.PushedInOrder, State.PipeInOrder, State.BytesInOrder;
  }

  lemma SameWork(s: State, regs: Registers)
    ensures s.(regs := regs).Work() == s.Work()
  {
  }

  lemma WorkIsNatural(s: State)
    requires s.Running()
    ensures s.Work() >= 0
  {
  }

  /** The driver's own assertion: no more bytes wait in the RX FIFO than read
      commands are unanswered. */
  lemma NoMoreThanMissing(s: State)
    requires s.Running()
    ensures |s.hw.rxFifo| <= s.Missing()
    ensures s.hw.rxFifo != [] ==> s.readPos < s.xfer.rxLen
  {
  }

  // Once every byte has been read, every command has been carried out.
  lemma AllRead(s: State)
    requires s.Running() && s.readPos == s.xfer.rxLen > 0
    ensures s.hw.txFifo == [] && s.hw.inFlight.Nothing? && s.hw.rxFifo == []
    ensures s.writePos == |s.xfer.tx| && s.readCmdSend == 0
  {
  }

  /** While a transfer is under way, a controller with nothing to do has raised an
      interrupt whose handler has something to do: a byte to take, a word to push,
      or the end to report. */
  lemma NeverStalls(s: State)
    requires s.Valid() && s.Stalled()
    ensures s.TxEmptyStat()
    ensures s.RxFullStat() || s.MoreToDo()
  {
  }

  /** The controller left to itself; the slave answers with `bytes`, one for each
      step that asks for one. */
  function HardwareAfter(s: State, bytes: seq<Byte>): State
    decreases |bytes|
  {
    if bytes == [] then s else HardwareAfter(HardwareNext(s, bytes[0]), bytes[1..])
  }

  // It keeps the invariant, changes nothing of the driver, and comes to rest.
  lemma {:induction false} ComesToRest(s: State, bytes: seq<Byte>)
    requires s.Running()
    ensures var t := HardwareAfter(s, bytes);
      && t.Running() && t.xfer == s.xfer && t.regs == s.regs && t.callbacks == s.callbacks && t.readPos == s.readPos
      && (|bytes| > s.Work() ==> t.HardwareIdle())
      && (s.HardwareIdle() ==> t == s)
    decreases |bytes|
  {
    hide State.PushedInOrder, State.PipeInOrder, State.BytesInOrder, State.FlowControlled, HardwareStepped, HistoryStepped;
    WorkIsNatural(s);
    if bytes == [] {
    } else {
      var next := HardwareNext(s, bytes[0]);
      HardwareKeeps(s, bytes[0]);
      ComesToRest(next, bytes[1..]);
    }
  }

  /** From any state of a reportable transfer that is under way, however the slave
      answers, the controller comes to rest with an interrupt raised whose handler
      has something to do. */
  lemma DriverIsWoken(s: State, bytes: seq<Byte>)
    requires s.Valid() && s.Underway() && (s.xfer.given || s.xfer.rxLen > 0)
    requires |bytes| > s.Work()
    ensures var t := HardwareAfter(s, bytes);
      t.Valid() && t.Stalled() && t.TxEmptyStat() && (t.RxFullStat() || t.MoreToDo())
  {
    hide State.PushedInOrder, State.PipeInOrder, State.BytesInOrder, State.FlowControlled, HardwareAfter;
    ComesToRest(s, bytes);
    NeverStalls(HardwareAfter(s, bytes));
  }

  /** A transfer that has concluded put exactly the commands asked for on the bus,
      in order, and left in the buffer the bytes the slave sent, in order. */
  lemma DeliversAll(s: State)
    requires s.Valid() && s.Concluded()
    ensures s.history.pushed == s.xfer.Commands()
    ensures |s.taken| == s.xfer.rxLen && s.taken == s.history.received
  {
    assert s.history.received[..s.readPos] == s.history.received;
  }

  /** What a transfer may leave behind: an idle controller, or the last byte still
      being sent. */
  predicate AtRest(hw: Hardware) {
    hw.txFifo == [] && hw.rxFifo == [] && !hw.txOver && !hw.rxOver && (hw.inFlight.Busy? ==> hw.inFlight.cmd.Send?)
  }

  lemma LeavesQuiet(s: State)
    requires s.Valid() && s.Concluded()
    ensures AtRest(s.hw) && (s.xfer.stop ==> s.hw.inFlight.Nothing?)
  {
    if s.hw.inFlight.Busy? && !s.history.stray {
      assert s.hw.inFlight.cmd == s.xfer.CommandAt(s.history.popped - 1);
    }
  }

  lemma StartsInOrder(s: State)
    requires s.writePos == s.readPos == 0 && s.readCmdSend == s.xfer.rxLen
    requires AtRest(s.hw) && s.history == History([], 0, [], s.hw.inFlight.Busy?) && s.taken == []
    requires s.regs.txTl <= TX_TL && s.regs.rxTl <= RX_TL < s.fifoSize
    ensures s.Running()
  {
  }

  /** STOP goes with the last command, and only if it was asked for. */
  lemma StopIsLast(x: Transfer, i: nat)
    requires i < x.Size()
    ensures x.Commands()[i].stop <==> x.stop && i == x.Size() - 1
    ensures i < |x.tx| ==> x.Commands()[i].Send? && x.Commands()[i].byte == x.tx[i]
    ensures i >= |x.tx| ==> x.Commands()[i].Fetch?
  {
    assert x.Commands()[i] == x.CommandAt(i);
  }

  // ---------------------------------------------------------------------------
  // The driver
  // ---------------------------------------------------------------------------

  class Master {
    const fifoSize: nat

    // Driver variables, and the client's transfer and buffer.
    var xfer: Transfer
    var rx: array<Byte>
    var writePos: nat
    var readPos: nat
    var readCmdSend: nat
    var callbacks: seq<Callback>

    // The controller.
    var regs: Registers
    var hw: Hardware
    var target: nat
    ghost var history: History

    constructor (fifoSize: nat)
      requires fifoSize > RX_TL
      ensures this.fifoSize == fifoSize && Quiet()
    {
      this.fifoSize := fifoSize;
      xfer, rx := Transfer([], false, 0, false), new Byte[0];
      writePos, readPos, readCmdSend, callbacks := 0, 0, 0, [];
      regs := Registers(0, 0, false, false, false);
      hw := Hardware([], Nothing, [], false, false);
      target := 0;
      history := History([], 0, [], false);
    }

    ghost predicate Quiet()
      reads this
    {
      fifoSize > RX_TL && AtRest(hw)
    }

    ghost predicate Sized()
      reads this
    {
      readPos <= xfer.rxLen <= rx.Length
    }

    ghost function View(): State
      requires Sized()
      reads this, rx
    {
      State(fifoSize, xfer, writePos, readPos, readCmdSend, callbacks, regs, hw, history, rx[..readPos])
    }

    ghost predicate Running()
      reads this, rx
    {
      Sized() && View().Running()
    }

    ghost predicate Valid()
      reads this, rx
    {
      Sized() && View().Valid()
    }

    /** The controller takes one step; the slave picks the byte. */
    method HardwareStep()
      requires Running()
      modifies this`hw, this`history
      ensures Running()
      ensures if old(View().HardwareIdle()) then View() == old(View()) else View().Work() < old(View().Work())
      ensures old(hw).rxFifo <= hw.rxFifo && |hw.txFifo| <= |old(hw).txFifo|
    {
      hide State.PushedInOrder, State.PipeInOrder, State.BytesInOrder;
      var byte: Byte := *;
      HardwareKeeps(View(), byte);
      history := HistoryStepped(View(), byte);
      hw := HardwareStepped(hw, fifoSize, regs.enabled, byte);
      assert View() == HardwareNext(old(View()), byte);
    }

    /** The controller works on, for as long as it likes. */
    method HardwareRuns()
      requires Running()
      modifies this`hw, this`history
      ensures Running()
      ensures View().Work() <= old(View().Work())
      ensures old(View().HardwareIdle()) ==> View() == old(View())
      ensures old(hw).rxFifo <= hw.rxFifo && |hw.txFifo| <= |old(hw).txFifo|
    {
      hide State.PushedInOrder, State.PipeInOrder, State.BytesInOrder;
      var steps: nat := *;
      while steps > 0
        invariant Running()
        invariant View().Work() <= old(View().Work())
        invariant old(View().HardwareIdle()) ==> View() == old(View())
        invariant old(hw).rxFifo <= hw.rxFifo && |hw.txFifo| <= |old(hw).txFifo|
      {
        HardwareStep();
        steps := steps - 1;
      }
    }

    /** A write to ic_data_cmd. */
    method WriteDataCmd(cmd: Cmd)
      requires Sized()
      modifies this`hw, this`history
      ensures Sized() && View() == Push(old(View()), cmd)
    {
      if |hw.txFifo| < fifoSize {
        history := history.(pushed := history.pushed + [cmd]);
        hw := hw.(txFifo := hw.txFifo + [cmd]);
      } else {
        hw := hw.(txOver := true);
      }
    }

    /** Wait for the byte in flight, and stop. */
    method ControllerDisable()
      requires Running() && hw.txFifo == []
      modifies this`hw, this`history, this`regs
      ensures Running() && hw.txFifo == [] && hw.inFlight.Nothing?
      ensures regs == old(regs).(enabled := false)
      ensures View().Work() <= old(View().Work())
    {
      hide State.PushedInOrder, State.PipeInOrder, State.BytesInOrder;
      RegistersKeep(View(), regs.(enabled := false), callbacks);
      regs := regs.(enabled := false);
      assert View() == old(View()).(regs := regs);
      while hw.inFlight.Busy?
        invariant Running() && hw.txFifo == []
        invariant regs == old(regs).(enabled := false)
        invariant View().Work() <= old(View().Work())
        decreases View().Work()
      {
        WorkIsNatural(View());
        HardwareStep();
        WorkIsNatural(View());
      }
    }

    /** Write the next data word, whenever the controller gets to it. */
    method PushSend(cmd: Cmd)
      requires Running() && writePos < |xfer.tx| && |hw.txFifo| < fifoSize
      requires cmd == xfer.CommandAt(writePos)
      modifies this`hw, this`history, this`writePos
      ensures Running()
      ensures writePos == old(writePos) + 1
      ensures View().Work() < old(View().Work())
      ensures |hw.txFifo| <= |old(hw).txFifo| + 1 && old(hw).rxFifo <= hw.rxFifo
    {
      hide State.PushedInOrder, State.PipeInOrder, State.BytesInOrder;
      HardwareRuns();
      ghost var before := View();
      PushSendKeeps(before);
      WriteDataCmd(cmd);
      writePos := writePos + 1;
      assert View() == Push(before, cmd).(writePos := before.writePos + 1);
    }

    /** Write the next read command; the counter goes first. */
    method PushFetch(stop: bool)
      requires Running() && writePos == |xfer.tx| && readCmdSend > 0
      requires |hw.txFifo| < fifoSize && View().Missing() < fifoSize
      requires stop == (xfer.stop && readCmdSend == 1)
      modifies this`hw, this`history, this`readCmdSend
      ensures Running()
      ensures readCmdSend == old(readCmdSend) - 1
      ensures View().Work() < old(View().Work())
      ensures |hw.txFifo| <= |old(hw).txFifo| + 1
    {
      hide State.PushedInOrder, State.PipeInOrder, State.BytesInOrder;
      HardwareRuns();
      ghost var before := View();
      PushFetchKeeps(before);
      readCmdSend := readCmdSend - 1;
      WriteDataCmd(Fetch(stop));
      assert View() == Push(before, Fetch(stop)).(readCmdSend := before.readCmdSend - 1);
    }

    /** Write as many data words as are sure to fit; the return value is how many
        are left. */
    method MasterFillTxFifo() returns (writeRemaining: nat)
      requires Running()
      requires writePos < |xfer.tx| ==> |hw.txFifo| <= TX_TL
      modifies this`hw, this`history, this`writePos
      ensures Running()
      ensures writeRemaining == |xfer.tx| - writePos
      ensures var room := fifoSize - TX_TL;
        writePos == if |xfer.tx| - old(writePos) < room then |xfer.tx| else old(writePos) + room
      ensures View().Work() <= old(View().Work())
      ensures old(writePos) < |xfer.tx| ==> View().Work() < old(View().Work())
      ensures old(writePos) == |xfer.tx| ==> View() == old(View())
    {
      hide State.PushedInOrder, State.PipeInOrder, State.BytesInOrder;
      var countTx := fifoSize - TX_TL;
      writeRemaining := |xfer.tx| - writePos;
      var readRemaining := xfer.rxLen - readPos;
      while countTx > 0 && writeRemaining > 0
        invariant Running()
        invariant writeRemaining == |xfer.tx| - writePos
        invariant old(writePos) <= writePos && 0 <= countTx == fifoSize - TX_TL - (writePos - old(writePos))
        invariant writeRemaining > 0 ==> |hw.txFifo| + countTx <= fifoSize
        invariant View().Work() + (writePos - old(writePos)) <= old(View().Work())
        invariant writePos == old(writePos) ==> View() == old(View())
      {
        countTx := countTx - 1;
        writeRemaining := writeRemaining - 1;
        var cmd := Send(xfer.tx[writePos], xfer.stop && writeRemaining == 0 && readRemaining == 0);
        PushSend(cmd);
      }
    }

    /** Read ic_data_cmd into the client's buffer. */
    method TakeByte()
      requires Running() && hw.rxFifo != [] && readPos < xfer.rxLen
      modifies this`hw, this`history, this`readPos, rx
      ensures Running()
      ensures readPos == old(readPos) + 1
      ensures View().Work() < old(View().Work())
    {
      hide State.PushedInOrder, State.PipeInOrder, State.BytesInOrder;
      HardwareRuns();
      ghost var before := View();
      TakeKeeps(before);
      rx[readPos] := hw.rxFifo[0];
      hw := hw.(rxFifo := hw.rxFifo[1..]);
      readPos := readPos + 1;
      assert rx[..readPos] == before.taken + [before.hw.rxFifo[0]];
      assert View() == Take(before);
    }

    /** The RX_FULL half of the handler: read what there is, report the end, and
        lower the threshold to the bytes that remain. */
    method ReadRxFifo() returns (readRemaining: nat)
      requires Valid() && View().Underway() && View().RxFullStat()
      modifies this`hw, this`history, this`readPos, this`callbacks, this`regs, rx
      ensures Valid() && readRemaining == xfer.rxLen - readPos
      ensures readRemaining > 0 <==> View().Underway()
      ensures regs.rxTl == if 0 < readRemaining < RX_TL + 1 then readRemaining - 1 else old(regs).rxTl
      ensures View().Work() < old(View().Work())
    {
      hide State.PushedInOrder, State.PipeInOrder, State.BytesInOrder, State.Work;
      ghost var start := View();
      NoMoreThanMissing(start);
      readRemaining := xfer.rxLen - readPos;
      assert readRemaining > 0;
      var level := |hw.rxFifo|;
      while readRemaining > 0 && level > 0
        invariant Running() && readRemaining == xfer.rxLen - readPos && level <= |hw.rxFifo|
        invariant regs.rxTl == start.regs.rxTl
        invariant if readRemaining > 0 then View().Underway() else View().Concluded()
        invariant View().Work() <= start.Work()
        invariant readPos > start.readPos ==> View().Work() < start.Work()
        invariant readPos > start.readPos || (readRemaining > 0 && level > 0)
        decreases readRemaining
      {
        TakeByte();
        readRemaining := readRemaining - 1;
        if readRemaining == 0 {
          FinishReading();
        }
        HardwareRuns();
        level := |hw.rxFifo|;
      }
      ghost var before := View();
      if 0 < readRemaining < RX_TL + 1 {
        RegistersKeep(before, regs.(rxTl := readRemaining - 1), callbacks);
        regs := regs.(rxTl := readRemaining - 1);
      }
      SameWork(before, regs);
      assert View() == before.(regs := regs);
    }

    /** The last byte has arrived. */
    method FinishReading()
      requires Running() && callbacks == [] && regs.enabled
      requires readPos == xfer.rxLen > 0
      modifies this`hw, this`history, this`callbacks, this`regs
      ensures Running() && View().Concluded() && regs.rxTl == old(regs).rxTl
      ensures View().Work() < old(View().Work())
    {
      hide State.PushedInOrder, State.PipeInOrder, State.BytesInOrder;
      AllRead(View());
      RegistersKeep(View(), regs.(maskRxFull := false, maskTxEmpty := false), callbacks);
      regs := regs.(maskRxFull := false, maskTxEmpty := false);
      assert View() == old(View()).(regs := regs);
      if xfer.stop {
        ControllerDisable();
      }
      ghost var before := View();
      AllRead(before);
      RegistersKeep(before, regs, callbacks + [Idle(readPos)]);
      callbacks := callbacks + [Idle(readPos)];
      assert View() == before.(callbacks := callbacks);
    }

    /** Issue read commands for as many of the bytes still wanted as the RX FIFO is
        sure to hold. */
    method RequestBytes(writeRemaining: nat)
      requires Running() && writeRemaining == |xfer.tx| - writePos
      modifies this`hw, this`history, this`readCmdSend
      ensures Running()
      ensures View().Work() <= old(View().Work())
      ensures old(View().HardwareIdle() && View().HasRoomToAsk()) ==> View().Work() < old(View().Work())
      ensures writeRemaining > 0 ==> readCmdSend == old(readCmdSend)
      ensures writeRemaining == 0 ==>
        var room := fifoSize - |old(hw).txFifo| - old(View()).Missing();
        && readCmdSend
           <= (if room >= old(readCmdSend) then 0 else if room > 0 then old(readCmdSend) - room else old(readCmdSend))
        && (old(View().HardwareIdle()) && room < old(readCmdSend) ==>
              readCmdSend == old(readCmdSend) - (if room > 0 then room else 0))
      ensures old(readCmdSend) == 0 ==> |hw.txFifo| <= |old(hw).txFifo|
      ensures old(readCmdSend) == 0 && old(View().HardwareIdle()) ==> View() == old(View())
    {
      hide State.PushedInOrder, State.PipeInOrder, State.BytesInOrder, State.Work;
      var missing := xfer.rxLen - readPos - readCmdSend;
      HardwareRuns();
      NoMoreThanMissing(View());
      assert |hw.rxFifo| <= missing; // as the driver asserts
      HardwareRuns();
      var countTx := fifoSize - |hw.txFifo|;
      countTx := if countTx > missing then countTx - missing else 0;
      ghost var start := View();
      while readCmdSend > 0 && writeRemaining == 0 && countTx > 0
        invariant Running()
        invariant countTx > 0 ==> |hw.txFifo| + countTx <= fifoSize && View().Missing() + countTx <= fifoSize
        invariant View().Work() + (start.readCmdSend - readCmdSend) <= start.Work()
        invariant readCmdSend == start.readCmdSend ==> View() == start
        invariant readCmdSend <= start.readCmdSend
        invariant writeRemaining > 0 ==> readCmdSend == start.readCmdSend
        invariant countTx >= 0 && countTx + (start.readCmdSend - readCmdSend)
          == if fifoSize - |start.hw.txFifo| > missing then fifoSize - |start.hw.txFifo| - missing else 0
        decreases readCmdSend
      {
        countTx := countTx - 1;
        PushFetch(xfer.stop && readCmdSend == 1);
      }
    }

    /** Everything has been sent and nothing is to be read. */
    method FinishWriting()
      requires Valid() && View().Underway() && xfer.rxLen == 0
      requires hw.txFifo == [] && writePos == |xfer.tx|
      modifies this`hw, this`history, this`callbacks, this`regs
      ensures Valid() && View().Concluded() && regs.txTl == old(regs).txTl
      ensures View().Work() < old(View().Work())
    {
      hide State.PushedInOrder, State.PipeInOrder, State.BytesInOrder;
      RegistersKeep(View(), regs.(maskTxEmpty := false), callbacks);
      regs := regs.(maskTxEmpty := false);
      assert View() == old(View()).(regs := regs);
      if xfer.stop {
        ControllerDisable();
      }
      ghost var before := View();
      RegistersKeep(before, regs, callbacks + [Idle(writePos)]);
      callbacks := callbacks + [Idle(writePos)];
      assert View() == before.(callbacks := callbacks);
    }

    /** Write what is left of tx, and issue what reads are possible. */
    method Replenish() returns (writeRemaining: nat)
      requires Valid() && (View().Underway() ==> |hw.txFifo| <= TX_TL)
      modifies this`hw, this`history, this`writePos, this`readCmdSend
      ensures Valid() && writeRemaining == |xfer.tx| - writePos
      ensures View().Work() <= old(View().Work())
      ensures old(View().HardwareIdle()) && (old(writePos) < |xfer.tx| || old(View().HasRoomToAsk())) ==>
        View().Work() < old(View().Work())
    {
      hide State.PushedInOrder, State.PipeInOrder, State.BytesInOrder;
      writeRemaining := MasterFillTxFifo();
      RequestBytes(writeRemaining);
    }

    /** The TX_EMPTY half of the handler: report the end, or keep the FIFO fed. */
    method FeedTxFifo(readRemaining: nat)
      requires Valid() && View().Underway() && View().TxEmptyStat()
      requires readRemaining == xfer.rxLen - readPos
      modifies this`hw, this`history, this`writePos, this`readCmdSend, this`callbacks, this`regs
      ensures Valid()
      ensures View().Work() <= old(View().Work())
      ensures old(View().Stalled() && View().MoreToDo()) ==> View().Work() < old(View().Work())
      ensures !xfer.Reportable() ==> callbacks == old(callbacks)
      ensures regs.txTl == if writePos == |xfer.tx| && readRemaining == 0 then 0 else old(regs).txTl
    {
      hide State.PushedInOrder, State.PipeInOrder, State.BytesInOrder, State.Work;
      var writeRemaining := |xfer.tx| - writePos;
      HardwareRuns();
      if hw.txFifo == [] && xfer.given && writeRemaining == 0 && readRemaining == 0 {
        FinishWriting();
      }
      writeRemaining := Replenish();
      if writeRemaining == 0 && readRemaining == 0 {
        LowerTxThreshold();
      }
    }

    /** Ask for TX_EMPTY only when the FIFO is quite empty. */
    method LowerTxThreshold()
      requires Valid()
      modifies this`regs
      ensures Valid() && regs == old(regs).(txTl := 0) && View() == old(View()).(regs := regs)
      ensures View().Work() == old(View()).Work()
    {
      hide State.PushedInOrder, State.PipeInOrder, State.BytesInOrder;
      RegistersKeep(View(), regs.(txTl := 0), callbacks);
      regs := regs.(txTl := 0);
      assert View() == old(View()).(regs := regs);
    }

    /** The master's interrupt handler. */
    method IsrMasterHandler()
      requires Valid()
      modifies this`hw, this`history, this`writePos, this`readPos, this`readCmdSend, this`callbacks, this`regs, rx
      ensures Valid()
      ensures View().Work() <= old(View().Work())
      ensures old(View().Stalled()) ==> View().Work() < old(View().Work())
      ensures old(View().Concluded()) || !xfer.Reportable() ==> callbacks == old(callbacks)
      ensures old(callbacks) == [] && callbacks != [] && xfer.rxLen == 0 ==> regs.txTl == 0
    {
      hide State.PushedInOrder, State.PipeInOrder, State.BytesInOrder, State.Work;
      var readRemaining := xfer.rxLen - readPos;
      if old(View().Stalled()) {
        NeverStalls(View());
      }
      HardwareRuns();
      NoMoreThanMissing(View());
      if RxFull(regs, hw) {
        readRemaining := ReadRxFifo();
      }
      HardwareRuns();
      if TxEmpty(regs, hw) {
        FeedTxFifo(readRemaining);
      }
    }

    /** Start a transfer once the one before has been reported: set the thresholds,
        fill the TX FIFO, and let the interrupts in. */
    method MasterIrqTransfer(xfer: Transfer, rx: array<Byte>, slaveAddr: nat) returns (rc: int)
      requires Quiet() && xfer.WellFormed() && xfer.rxLen <= rx.Length
      modifies this
      ensures rc == if slaveAddr <= 0x3ff then 0 else -EINVAL
      ensures rc != 0 ==> unchanged(this)
      ensures rc == 0 ==> this.xfer == xfer && this.rx == rx && target == slaveAddr
      ensures rc == 0 ==> Valid() && View().Underway() && regs.txTl == 2
      ensures rc == 0 ==> regs.rxTl == if 0 < xfer.rxLen < 6 then xfer.rxLen - 1 else 5
    {
      hide State.PushedInOrder, State.PipeInOrder, State.BytesInOrder, State.Work;
      if slaveAddr > TAR_MASK {
        return -EINVAL;
      }
      target := slaveAddr;
      writePos, readPos, readCmdSend := 0, 0, xfer.rxLen;
      this.xfer, this.rx, callbacks := xfer, rx, [];
      history := History([], 0, [], hw.inFlight.Busy?);
      var rxTl := if 0 < xfer.rxLen < RX_TL + 1 then xfer.rxLen - 1 else RX_TL;
      regs := Registers(TX_TL, rxTl, false, false, true);
      StartsInOrder(View());
      var writeRemaining := MasterFillTxFifo();
      Unmask();
      return 0;
    }

    method Unmask()
      requires Running()
      modifies this`regs
      ensures Running() && regs == old(regs).(maskRxFull := true, maskTxEmpty := true)
    {
      hide State.PushedInOrder, State.PipeInOrder, State.BytesInOrder, State.Work;
      ghost var before := View();
      RegistersKeep(before, regs.(maskRxFull := true, maskTxEmpty := true), callbacks);
      regs := regs.(maskRxFull := true, maskTxEmpty := true);
      assert View() == before.(regs := regs);
    }

    /** Any stretch of time: handler calls, needed or spurious, between any steps
        of the controller. */
    method AnyWhile()
      requires Valid()
      modifies this`hw, this`history, this`writePos, this`readPos, this`readCmdSend, this`callbacks, this`regs, rx
      ensures Valid()
      ensures View().Work() <= old(View().Work())
      ensures !xfer.Reportable() || old(View().Concluded()) ==> callbacks == old(callbacks)
      ensures old(View().Concluded()) ==> View().Concluded()
    {
      hide State.PushedInOrder, State.PipeInOrder, State.BytesInOrder, State.Work;
      var steps: nat := *;
      while steps > 0
        invariant Valid()
        invariant View().Work() <= old(View().Work())
        invariant !xfer.Reportable() || old(View().Concluded()) ==> callbacks == old(callbacks)
      {
        if * {
          HardwareStep();
        } else {
          IsrMasterHandler();
        }
        steps := steps - 1;
      }
    }

    /** Every fair run of a transfer ends, with one report, and nothing is reported
        again.  Fair means that again and again the controller takes a step and an
        interrupt is then served; anything may happen in between, and after. */
    method FairRun()
      requires Valid() && (xfer.given || xfer.rxLen > 0)
      modifies this`hw, this`history, this`writePos, this`readPos, this`readCmdSend, this`callbacks, this`regs, rx
      ensures Valid()
      ensures callbacks == [Idle(if xfer.rxLen > 0 then xfer.rxLen else |xfer.tx|)]
      ensures history.pushed == xfer.Commands()
      ensures rx[..xfer.rxLen] == history.received
      ensures Quiet() && regs.enabled == !xfer.stop && (xfer.stop ==> hw.inFlight.Nothing?)
    {
      hide State.PushedInOrder, State.PipeInOrder, State.BytesInOrder, State.Work;
      while callbacks == []
        invariant Valid()
        decreases View().Work()
      {
        AnyWhile();
        if callbacks != [] {
          break;
        }
        HardwareStep();
        IsrMasterHandler();
        WorkIsNatural(View());
      }
      AnyWhile();
      DeliversAll(View());
      LeavesQuiet(View());
    }
  }
}
